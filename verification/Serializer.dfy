/** The RESP printer: the bytes it writes, and the method that appends them one by one. */
module Serializer {
  import opened ByteStrings
  import opened Decimal
  import opened RespValues
  import opened Parser

  const NULL_BULK: Bytes := [BULK_TAG, MINUS, 49] + CRLF  // "$-1\r\n"

  function Serialize(v: RespValue): (r: Bytes)
    ensures |r| > 0
  {
    match v
    case NullBulkString => NULL_BULK
    case SimpleString(msg) => [STRING_TAG] + msg + CRLF
    case SimpleError(msg) => [ERROR_TAG] + msg + CRLF
    case Integer(val) => [INTEGER_TAG] + IntStr(val as int) + CRLF
    case BulkString(msg) => [BULK_TAG] + IntStr(|msg|) + CRLF + msg + CRLF
    case Array(vals) => [ARRAY_TAG] + IntStr(|vals|) + CRLF + SerializeAll(vals)
  }

  function SerializeAll(vs: seq<RespValue>): Bytes {
    if |vs| == 0 then [] else Serialize(vs[0]) + SerializeAll(vs[1..])
  }

  lemma {:induction false} SerializeAllAppend(a: seq<RespValue>, b: seq<RespValue>)
    ensures SerializeAll(a + b) == SerializeAll(a) + SerializeAll(b)
  {
    if |a| == 0 {
      assert a + b == b;
    } else {
      assert (a + b)[1..] == a[1..] + b;
      SerializeAllAppend(a[1..], b);
    }
  }

  lemma SerializeCons(v: RespValue, vs: seq<RespValue>)
    ensures SerializeAll([v] + vs) == Serialize(v) + SerializeAll(vs)
  {
    assert ([v] + vs)[1..] == vs;
  }

  lemma SerializeAllSnoc(vs: seq<RespValue>, i: nat)
    requires i < |vs|
    ensures SerializeAll(vs[..i + 1]) == SerializeAll(vs[..i]) + Serialize(vs[i])
  {
    assert vs[..i + 1] == vs[..i] + [vs[i]];
    SerializeAllAppend(vs[..i], [vs[i]]);
    assert [vs[i]][1..] == [];
  }

  /** `serialize`: appends to `ret`, element by element for an array. */
  method SerializeResp(resp: RespValue) returns (ret: Bytes)
    ensures ret == Serialize(resp)
    decreases resp
  {
    match resp
    case NullBulkString =>
      ret := NULL_BULK;
    case SimpleString(msg) =>
      ret := [STRING_TAG];
      ret := ret + msg;
      ret := ret + CRLF;
    case SimpleError(msg) =>
      ret := [ERROR_TAG];
      ret := ret + msg;
      ret := ret + CRLF;
    case Integer(val) =>
      ret := [INTEGER_TAG];
      ret := ret + IntStr(val as int);
      ret := ret + CRLF;
    case BulkString(msg) =>
      var len := IntStr(|msg|);
      ret := [BULK_TAG];
      ret := ret + len;
      ret := ret + CRLF;
      ret := ret + msg;
      ret := ret + CRLF;
    case Array(vals) =>
      var len := IntStr(|vals|);
      ret := [ARRAY_TAG];
      ret := ret + len;
      ret := ret + CRLF;
      ghost var header := ret;
      for i := 0 to |vals|
        invariant ret == header + SerializeAll(vals[..i])
      {
        var retVal := SerializeResp(vals[i]);
        SerializeAllSnoc(vals, i);
        ret := ret + retVal;
      }
      assert vals[..|vals|] == vals;
  }
}
