/**
  The parser as it runs: a buffer, a cursor that each routine advances, and a result value that is
  assigned only on COMPLETE. C++ reference parameters are pairs of in- and out-parameters here.
*/
module RespParser {
  import opened ByteStrings
  import opened Decimal
  import opened RespValues
  import opened Parser

  datatype Code = COMPLETE | INCOMPLETE | ERROR

  /** A connection: its descriptor and the bytes received but not yet consumed. */
  class ClientConnection {
    const fd: int
    var buff: Bytes

    constructor (fd: int)
      ensures this.fd == fd && buff == []
    {
      this.fd := fd;
      buff := [];
    }
  }

  /**
    The routine's code, result and cursor are those of `o`. On a verdict other than COMPLETE the
    result keeps its old value `ret0`, even where the cursor has already moved.
  */
  predicate Agrees(o: Outcome<RespValue>, buff: Bytes, ret0: RespValue, from: nat,
                   code: Code, ret: RespValue, cursor: nat)
  {
    && from <= cursor <= |buff|
    && match o
       case Complete(v, u) => code.COMPLETE? && ret == v && cursor == from + u
       case Incomplete => code.INCOMPLETE? && ret == ret0
       case Error => code.ERROR? && ret == ret0
  }

  method ReadSimpleString(buff: Bytes, ret0: RespValue, from: nat)
    returns (code: Code, ret: RespValue, cursor: nat)
    requires from < |buff|
    ensures Agrees(ParseSimpleString(buff[from + 1..]), buff, ret0, from, code, ret, cursor)
    ensures code != COMPLETE ==> cursor == from
  {
    ret, cursor := ret0, from;
    var sv := buff[from + 1..];
    var pos := Find(sv);
    if pos.None? {
      return INCOMPLETE, ret, cursor;
    }
    var msg := sv[..pos.value];
    if CR in msg {
      return ERROR, ret, cursor;
    } else if LF in msg {
      return ERROR, ret, cursor;
    }
    ret := SimpleString(msg);
    cursor := cursor + 1 + pos.value + |CRLF|;
    code := COMPLETE;
  }

  method ReadSimpleError(buff: Bytes, ret0: RespValue, from: nat)
    returns (code: Code, ret: RespValue, cursor: nat)
    requires from < |buff|
    ensures Agrees(ParseSimpleError(buff[from + 1..]), buff, ret0, from, code, ret, cursor)
    ensures code != COMPLETE ==> cursor == from
  {
    ret, cursor := ret0, from;
    var sv := buff[from + 1..];
    var pos := Find(sv);
    if pos.None? {
      return INCOMPLETE, ret, cursor;
    }
    if pos.value == 0 {
      return ERROR, ret, cursor;
    }
    var msg := sv[..pos.value];
    if CR in msg {
      return ERROR, ret, cursor;
    } else if LF in msg {
      return ERROR, ret, cursor;
    }
    ret := SimpleError(msg);
    cursor := cursor + 1 + pos.value + |CRLF|;
    code := COMPLETE;
  }

  method ReadInteger(buff: Bytes, ret0: RespValue, from: nat)
    returns (code: Code, ret: RespValue, cursor: nat)
    requires from < |buff|
    ensures Agrees(ParseInteger(buff[from + 1..]), buff, ret0, from, code, ret, cursor)
    ensures code != COMPLETE ==> cursor == from
  {
    ret, cursor := ret0, from;
    var sv := buff[from + 1..];
    var pos := Find(sv);
    if pos.None? {
      return INCOMPLETE, ret, cursor;
    }
    if pos.value == 0 {
      return ERROR, ret, cursor;
    }
    var val := Stoll(sv[..pos.value]);
    if !val.Parsed? {
      return ERROR, ret, cursor;
    }
    ret := Integer(val.val);
    cursor := cursor + 1 + pos.value + |CRLF|;
    code := COMPLETE;
  }

  method ReadBulkString(buff: Bytes, ret0: RespValue, from: nat)
    returns (code: Code, ret: RespValue, cursor: nat)
    requires from < |buff|
    ensures Agrees(ParseBulkString(buff[from + 1..]), buff, ret0, from, code, ret, cursor)
    ensures code != COMPLETE ==> cursor == from
  {
    ret, cursor := ret0, from;
    var sv := buff[from + 1..];
    var pos := Find(sv);
    if pos.None? {
      return INCOMPLETE, ret, cursor;
    }
    if pos.value == 0 {
      return ERROR, ret, cursor;
    }
    var raw := Stoll(sv[..pos.value]);
    if !raw.Parsed? {
      return ERROR, ret, cursor;
    }
    if raw.val == -1 {
      ret := NullBulkString;
      cursor := cursor + 1 + pos.value + |CRLF|;
      return COMPLETE, ret, cursor;
    } else if raw.val < 0 {
      return ERROR, ret, cursor;
    }
    var msgLen := raw.val as nat;
    var rest := sv[pos.value + 2..];
    var msgSv := if |rest| < msgLen + 2 then rest else rest[..msgLen + 2];
    if |msgSv| < msgLen + 2 {
      return INCOMPLETE, ret, cursor;
    }
    if msgSv[msgLen..] != CRLF {
      assert rest[msgLen..msgLen + 2] == msgSv[msgLen..];
      return ERROR, ret, cursor;
    }
    assert rest[msgLen..msgLen + 2] == msgSv[msgLen..];
    assert msgSv[..msgLen] == rest[..msgLen];
    ret := BulkString(msgSv[..msgLen]);
    cursor := cursor + 1 + pos.value + |CRLF| + msgLen + |CRLF|;
    code := COMPLETE;
  }

  lemma PrependPrepend(a: seq<RespValue>, u: nat, b: seq<RespValue>, w: nat, o: Outcome<seq<RespValue>>)
    ensures Prepend(a, u, Prepend(b, w, o)) == Prepend(a + b, u + w, o)
  {
    if o.Complete? {
      assert a + (b + o.value) == (a + b) + o.value;
    }
  }

  /** One element of the loop: what was read so far, and what the rest of the buffer adds to it. */
  lemma ElemsAdvance(buff: Bytes, front: seq<RespValue>, used: nat, here: nat, n: nat)
    requires here <= |buff| && n > 0
    ensures var all := Prepend(front, used, ParseElems(buff[here..], n));
      match Parse(buff[here..])
      case Complete(v, u) => all == Prepend(front + [v], used + u, ParseElems(buff[here + u..], n - 1))
      case Incomplete => all.Incomplete?
      case Error => all.Error?
  {
    ElemsUnfold(buff[here..], n);
    if Parse(buff[here..]).Complete? {
      var Complete(v, u) := Parse(buff[here..]);
      assert buff[here..][u..] == buff[here + u..];
      PrependPrepend(front, used, [v], u, ParseElems(buff[here + u..], n - 1));
    }
  }

  lemma PrependEnds(front: seq<RespValue>, used: nat, o: Outcome<seq<RespValue>>, s: Bytes)
    ensures Prepend([], 0, o) == o
    ensures Prepend(front, used, ParseElems(s, 0)) == Complete(front, used)
  {
    if o.Complete? {
      assert [] + o.value == o.value;
    }
    assert front + [] == front;
  }

  /** The element loop of `parse_array`. */
  method ReadElems(buff: Bytes, from: nat, arrLen: nat)
    returns (code: Code, elems: seq<RespValue>, cursor: nat)
    requires from <= |buff|
    ensures from <= cursor <= |buff|
    ensures match ParseElems(buff[from..], arrLen)
            case Complete(vals, u) => code == COMPLETE && elems == vals && cursor == from + u
            case Incomplete => code == INCOMPLETE
            case Error => code == ERROR
    decreases |buff| - from, 2
  {
    hide ParseElems, Parse;
    elems, cursor := [], from;
    ghost var all := ParseElems(buff[from..], arrLen);
    PrependEnds([], 0, all, buff);
    for i := 0 to arrLen
      invariant from <= cursor <= |buff|
      invariant all == Prepend(elems, cursor - from, ParseElems(buff[cursor..], arrLen - i))
    {
      ElemsAdvance(buff, elems, cursor - from, cursor, arrLen - i);
      var elem;
      code, elem, cursor := ReadOneInner(buff, NullBulkString, cursor);
      if code != COMPLETE {
        return code, elems, cursor;
      }
      elems := elems + [elem];
    }
    PrependEnds(elems, cursor - from, all, buff[cursor..]);
    code := COMPLETE;
  }

  method ReadArray(buff: Bytes, ret0: RespValue, from: nat)
    returns (code: Code, ret: RespValue, cursor: nat)
    requires from < |buff|
    ensures Agrees(ParseArray(buff[from + 1..]), buff, ret0, from, code, ret, cursor)
    decreases |buff| - from, 0
  {
    hide Parse, ParseElems;
    ret, cursor := ret0, from;
    var sv := buff[from + 1..];
    var pos := Find(sv);
    if pos.None? {
      return INCOMPLETE, ret, cursor;
    }
    if pos.value == 0 {
      return ERROR, ret, cursor;
    }
    var raw := Stoll(sv[..pos.value]);
    if !raw.Parsed? {
      return ERROR, ret, cursor;
    }
    if raw.val < 0 {
      return ERROR, ret, cursor;
    }
    var arrLen := raw.val as nat;
    cursor := cursor + 1 + pos.value + |CRLF|;
    assert sv[pos.value + 2..] == buff[cursor..];
    var elems;
    code, elems, cursor := ReadElems(buff, cursor, arrLen);
    if code == COMPLETE {
      ret := Array(elems);
    }
  }

  /** `parse_one_inner`: one value at the cursor, judged by the bytes from the cursor on only. */
  method ReadOneInner(buff: Bytes, ret0: RespValue, from: nat)
    returns (code: Code, ret: RespValue, cursor: nat)
    requires from <= |buff|
    ensures Agrees(Parse(buff[from..]), buff, ret0, from, code, ret, cursor)
    decreases |buff| - from, 1
  {
    if from >= |buff| {
      return INCOMPLETE, ret0, from;
    }
    assert buff[from..][1..] == buff[from + 1..];
    if buff[from] == STRING_TAG {
      code, ret, cursor := ReadSimpleString(buff, ret0, from);
    } else if buff[from] == BULK_TAG {
      code, ret, cursor := ReadBulkString(buff, ret0, from);
    } else if buff[from] == INTEGER_TAG {
      code, ret, cursor := ReadInteger(buff, ret0, from);
    } else if buff[from] == ARRAY_TAG {
      code, ret, cursor := ReadArray(buff, ret0, from);
    } else if buff[from] == ERROR_TAG {
      code, ret, cursor := ReadSimpleError(buff, ret0, from);
    } else {
      code, ret, cursor := ERROR, ret0, from;
    }
  }

  /**
    `parse_one`: on COMPLETE exactly the consumed bytes leave the front of the buffer; otherwise the
    buffer and the result are untouched.
  */
  method ParseOne(client: ClientConnection, ret0: RespValue) returns (code: Code, ret: RespValue)
    modifies client`buff
    ensures match Parse(old(client.buff))
            case Complete(v, u) => code == COMPLETE && ret == v && client.buff == old(client.buff)[u..]
            case Incomplete => code == INCOMPLETE && ret == ret0 && client.buff == old(client.buff)
            case Error => code == ERROR && ret == ret0 && client.buff == old(client.buff)
  {
    if client.buff == [] {
      return INCOMPLETE, ret0;
    }
    assert client.buff[0..] == client.buff;
    var cursor;
    code, ret, cursor := ReadOneInner(client.buff, ret0, 0);
    if code == COMPLETE {
      client.buff := client.buff[cursor..];
    }
  }
}
