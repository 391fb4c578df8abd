/** repository/redis/redis.go: a record as the string fields of a Redis hash, and back. */
module RecordCodec {
  import opened Text
  import opened Decimal
  import opened Json
  import opened NetAddr
  import opened Records

  // ----- Time text: RFC 3339 with nanoseconds, as an arbitrary codec with an inverse -----

  datatype TimeCodec = TimeCodec(show: int -> string, parse: string -> Option<int>) {
    ghost predicate Valid() {
      forall t: int {:trigger show(t)} :: show(t) != "" && TrimSpace(show(t)) == show(t) && parse(show(t)) == Some(t)
    }
  }

  function SampleParseTime(s: string): Option<int> {
    if s == "" then None
    else
      var digits := if s[0] == '-' then s[1..] else s;
      if !AllDigits(digits) then None else Some(if s[0] == '-' then 0 - Value(digits) as int else Value(digits))
  }

  /** The requirements on a time codec can be met. */
  lemma SampleTimeValid()
    ensures TimeCodec(FormatInt, SampleParseTime).Valid()
  {
    forall t: int
      ensures FormatInt(t) != "" && TrimSpace(FormatInt(t)) == FormatInt(t) && SampleParseTime(FormatInt(t)) == Some(t)
    {
      FormatIntShape(t);
      FormatIntTrimmed(t);
      ValueOfFormatNat(if t < 0 then -t else t);
      assert t >= 0 ==> FormatInt(t)[0..] == FormatInt(t);
    }
  }

  type ValidTimeCodec = c: TimeCodec | c.Valid()
    witness (SampleTimeValid(); TimeCodec(FormatInt, SampleParseTime))

  /** Deliberately without a value: every theorem holds for whatever valid codec this is. */
  const TIMETEXT: ValidTimeCodec

  // ----- encodeRecordMap, decodeRecordMap, parseTargetStrings -----

  type Fields = map<string, string>

  const FIELD_NAMES: set<string> := {"instance_id", "targets", "created_at", "updated_at"}

  function TargetStrings(tps: seq<AddrPort>): seq<string> {
    if tps == [] then [] else TargetStrings(tps[..|tps| - 1]) + [ShowAddrPort(tps[|tps| - 1])]
  }

  function Encode(r: Record): (f: Fields)
    ensures f.Keys == FIELD_NAMES
  {
    map["instance_id" := FormatInt(r.instance),
        "targets" := MarshalStrings(TargetStrings(r.targets)),
        "created_at" := TIMETEXT.show(r.createdAt),
        "updated_at" := TIMETEXT.show(r.updatedAt)]
  }

  method EncodeRecordMap(r: Record) returns (out: Fields)
    ensures out == Encode(r)
  {
    hide ShowAddrPort, MarshalStrings, FormatInt;
    var targets: seq<string> := [];
    for i := 0 to |r.targets|
      invariant targets == TargetStrings(r.targets[..i])
    {
      assert r.targets[..i + 1][..i] == r.targets[..i];
      targets := targets + [ShowAddrPort(r.targets[i])];
    }
    assert r.targets[..|r.targets|] == r.targets;
    out := map["instance_id" := FormatInt(r.instance),
               "targets" := MarshalStrings(targets),
               "created_at" := TIMETEXT.show(r.createdAt),
               "updated_at" := TIMETEXT.show(r.updatedAt)];
  }

  function Get(f: Fields, name: string): string {
    if name in f then f[name] else ""
  }

  /** A stored instance id; blank or unreadable text is 0.  (Delete would use the nearest bound for a
      number beyond int64, but the encoder never stores one.) */
  function ReadInstance(text: string): int64 {
    match ParseInt64(TrimSpace(text))
    case Some(n) => n
    case None => 0
  }

  /** A stored time; blank or unreadable text is the zero time. */
  function ReadTime(text: string): int {
    var v := TrimSpace(text);
    if v == "" then 0
    else
      match TIMETEXT.parse(v)
      case Some(t) => t
      case None => 0
  }

  /** One stored target: a pair, else an address with port 0, else skipped. */
  function ReadTarget(s: string): seq<AddrPort> {
    match ParseAddrPort(s)
    case Some(tp) => [tp]
    case None =>
      match ParseAddr(s)
      case Some(a) => [AddrPort(a, 0)]
      case None => []
  }

  function ReadTargets(ss: seq<string>): seq<AddrPort> {
    if ss == [] then [] else ReadTargets(ss[..|ss| - 1]) + ReadTarget(ss[|ss| - 1])
  }

  method ParseTargetStrings(targetStrings: seq<string>) returns (targets: seq<AddrPort>)
    ensures targets == ReadTargets(targetStrings)
  {
    hide ParseAddrPort, ParseAddr;
    targets := [];
    for i := 0 to |targetStrings|
      invariant targets == ReadTargets(targetStrings[..i])
    {
      assert targetStrings[..i + 1][..i] == targetStrings[..i];
      var tp := ParseAddrPort(targetStrings[i]);
      if tp.Some? {
        targets := targets + [tp.value];
        continue;
      }
      var addr := ParseAddr(targetStrings[i]);
      if addr.Some? {
        targets := targets + [AddrPort(addr.value, 0)];
      }
    }
    assert targetStrings[..|targetStrings|] == targetStrings;
  }

  function Decode(domain: string, f: Fields): (r: Record)
    ensures r.domain == domain && r.id == 0
  {
    var targets :=
      match UnmarshalStrings(Get(f, "targets"))
      case Some(ss) => ReadTargets(ss)
      case None => [];
    Record(domain, ReadInstance(Get(f, "instance_id")), targets,
           ReadTime(Get(f, "created_at")), ReadTime(Get(f, "updated_at")), 0)
  }

  method DecodeRecordMap(domain: string, f: Fields) returns (r: Record)
    ensures r == Decode(domain, f)
  {
    hide ReadInstance, ReadTime, ReadTargets;
    var targets: seq<AddrPort> := [];
    var v := Get(f, "targets");
    if v != "" {
      var targetStrings := UnmarshalStrings(v);
      if targetStrings.Some? {
        targets := ParseTargetStrings(targetStrings.value);
      }
    }
    r := Record(domain, ReadInstance(Get(f, "instance_id")), targets,
                ReadTime(Get(f, "created_at")), ReadTime(Get(f, "updated_at")), 0);
  }

  /** What a hash lacks, or holds in a form that cannot be read, is zero. */
  lemma UnreadableIsZero(domain: string, f: Fields)
    ensures var r := Decode(domain, f);
            && r.domain == domain && r.id == 0
            && ("instance_id" !in f || ParseInt64(TrimSpace(f["instance_id"])).None? ==> r.instance == 0)
            && ("targets" !in f || UnmarshalStrings(f["targets"]).None? ==> r.targets == [])
            && ("created_at" !in f || TIMETEXT.parse(TrimSpace(f["created_at"])).None? ==> r.createdAt == 0)
            && ("updated_at" !in f || TIMETEXT.parse(TrimSpace(f["updated_at"])).None? ==> r.updatedAt == 0)
  {
    assert TrimSpace("") == "" && ParseInt64("") == None && UnmarshalStrings("") == None;
  }

  /** A stored address without a port is a target with port 0; what is no address is skipped. */
  lemma StoredForms(ss: seq<string>, s: string, a: Addr)
    ensures ParseAddrPort(s).None? && ParseAddr(s).None? ==> ReadTargets(ss + [s]) == ReadTargets(ss)
    ensures ReadTargets(ss + [ShowAddr(a)]) == ReadTargets(ss) + [AddrPort(a, 0)]
  {
    hide ParseAddrPort, ParseAddr, ShowAddr;
    ReadTargetsSnoc(ss, s);
    ReadTargetsSnoc(ss, ShowAddr(a));
    AddrRoundTrip(a);
    BareAddressIsNoPair(a);
  }

  lemma TargetReadsBack(tp: AddrPort)
    ensures ReadTarget(ShowAddrPort(tp)) == [tp]
  {
    AddrPortRoundTrip(tp);
  }

  lemma ReadTargetsSnoc(ss: seq<string>, s: string)
    ensures ReadTargets(ss + [s]) == ReadTargets(ss) + ReadTarget(s)
  {
  }

  lemma {:induction false} TargetsReadBack(tps: seq<AddrPort>)
    ensures ReadTargets(TargetStrings(tps)) == tps
  {
    hide ReadTarget, ShowAddrPort;
    if tps != [] {
      var init, last := tps[..|tps| - 1], tps[|tps| - 1];
      TargetsReadBack(init);
      TargetReadsBack(last);
      ReadTargetsSnoc(TargetStrings(init), ShowAddrPort(last));
      assert init + [last] == tps;
    }
  }

  lemma TimeReadsBack(t: int)
    ensures ReadTime(TIMETEXT.show(t)) == t
  {
  }

  lemma InstanceReadsBack(i: int64)
    ensures ReadInstance(FormatInt(i)) == i
  {
    FormatIntTrimmed(i);
    ParseFormatInt64(i);
  }

  /** Decoding undoes encoding: the instance id over the whole int64 range, both times, and the exact
      ordered target list; only the row id is not stored. */
  lemma CodecRoundTrip(r: Record)
    ensures Decode(r.domain, Encode(r)) == r.(id := 0)
  {
    hide MarshalStrings, UnmarshalStrings, ReadTargets, TargetStrings, ReadInstance, FormatInt, ReadTime;
    JsonRoundTrip(TargetStrings(r.targets));
    TargetsReadBack(r.targets);
    InstanceReadsBack(r.instance);
    TimeReadsBack(r.createdAt);
    TimeReadsBack(r.updatedAt);
  }
}
