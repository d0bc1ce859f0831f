/** The values of RESP2 and what makes one expressible on the wire. */
module RespValues {
  import opened ByteStrings
  import opened Decimal

  datatype RespValue =
    | NullBulkString
    | SimpleString(msg: Bytes)
    | SimpleError(msg: Bytes)
    | Integer(val: i64)
    | BulkString(msg: Bytes)
    | Array(vals: seq<RespValue>)

  /**
    The values that survive the wire: simple strings and errors are single lines, errors are not
    empty, and every announced length fits a signed 64-bit integer.
  */
  predicate WellFormed(v: RespValue) {
    match v
    case NullBulkString => true
    case SimpleString(msg) => IsLine(msg)
    case SimpleError(msg) => IsLine(msg) && msg != []
    case Integer(_) => true
    case BulkString(msg) => |msg| <= I64_MAX
    case Array(vals) => |vals| <= I64_MAX && forall i :: 0 <= i < |vals| ==> WellFormed(vals[i])
  }

  predicate AllWellFormed(vs: seq<RespValue>) {
    forall i :: 0 <= i < |vs| ==> WellFormed(vs[i])
  }

  /** The number of values in a value, itself included. */
  function Nodes(v: RespValue): nat {
    if v.Array? then 1 + NodesAll(v.vals) else 1
  }

  function NodesAll(vs: seq<RespValue>): nat {
    if |vs| == 0 then 0 else Nodes(vs[0]) + NodesAll(vs[1..])
  }
}
