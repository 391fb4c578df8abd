/** core/record.go: the record entity.  Times are instants; 0 is Go's zero time. */
module Records {
  import opened Decimal
  import opened NetAddr

  datatype Record = Record(
    domain: string, instance: int64, targets: seq<AddrPort>, createdAt: int, updatedAt: int, id: int)
}
