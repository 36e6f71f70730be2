/** The SNMP values a varbind can carry, and the varbinds of a response. */
module Values {
  import opened Common
  import opened Oids

  datatype Value =
    | Counter64(count64: int)
    | Counter32(count32: int)
    | Gauge32(gauge: int)
    | TimeTicks(ticks: int)
    | IpAddress(address: Bytes)
    | Opaque(blob: Bytes)
    | ObjectId(oid: Oid)
    | OctetString(octets: Bytes)
    | Integer(number: int)

  /** One varbind of a response: a bound value, or one of the exceptions of RFC 3416. */
  datatype VarBind =
    | Bound(name: Oid, val: Value)
    | EndOfMibView(name: Oid)
    | NoSuchInstance(name: Oid)
    | NoSuchObject(name: Oid)

  /** A varbind that carries a value. */
  type Binding = v: VarBind | v.Bound? witness Bound([], Integer(0))

  function NamesOf(vbs: seq<VarBind>): (names: seq<Oid>)
    ensures |names| == |vbs|
  {
    seq(|vbs|, i requires 0 <= i < |vbs| => vbs[i].name)
  }
}
