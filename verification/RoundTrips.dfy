/** Parsing undoes printing, and what follows from it. */
module RoundTrips {
  import opened ByteStrings
  import opened Decimal
  import opened RespValues
  import opened Parser
  import opened Serializer

  lemma LineRoundTrip(msg: Bytes, rest: Bytes)
    requires IsLine(msg)
    ensures Line(msg + CRLF + rest) == Complete(msg, |msg| + 2)
  {
    FindAfterLine(msg, rest);
    assert (msg + CRLF + rest)[..|msg|] == msg;
  }

  lemma HeaderRoundTrip(x: int, rest: Bytes)
    requires InI64(x)
    ensures Header(IntStr(x) + CRLF + rest) == Complete(x as i64, |IntStr(x)| + 2)
    ensures (IntStr(x) + CRLF + rest)[|IntStr(x)| + 2..] == rest
  {
    StollOfIntStr(x);
    HeaderOfText(IntStr(x), rest);
  }

  /** The bytes after the tag of a bulk string. */
  lemma BulkRoundTrip(msg: Bytes, rest: Bytes)
    requires |msg| <= I64_MAX
    ensures ParseBulkString(IntStr(|msg|) + CRLF + (msg + CRLF + rest))
         == Complete(BulkString(msg), |IntStr(|msg|)| + |msg| + 5)
  {
    var s := msg + CRLF + rest;
    HeaderRoundTrip(|msg|, s);
    assert s[..|msg|] == msg && s[|msg|..|msg| + 2] == CRLF;
  }

  /** The bytes after the tag of an array, given that its elements are read back. */
  lemma ArrayRoundTrip(vals: seq<RespValue>, body: Bytes, used: nat)
    requires |vals| <= I64_MAX
    requires ParseElems(body, |vals|) == Complete(vals, used)
    ensures ParseArray(IntStr(|vals|) + CRLF + body) == Complete(Array(vals), |IntStr(|vals|)| + 3 + used)
  {
    HeaderRoundTrip(|vals|, body);
  }

  /**
    A well-formed value, however nested, is read back exactly, and the bytes after its
    serialization are left untouched.
  */
  lemma {:induction false} RoundTrip(v: RespValue, rest: Bytes)
    requires WellFormed(v)
    ensures Parse(Serialize(v) + rest) == Complete(v, |Serialize(v)|)
    decreases v
  {
    hide Parse, ParseElems, Serialize, SerializeAll, AllWellFormed;
    match v
    case NullBulkString => NullRoundTrip(rest);
    case SimpleString(msg) => LineValueRoundTrip(v, rest);
    case SimpleError(msg) => LineValueRoundTrip(v, rest);
    case Integer(val) => IntegerRoundTrip(val, rest);
    case BulkString(msg) => BulkStringRoundTrip(msg, rest);
    case Array(vals) =>
      ElementsOf(vals);
      ElemsRoundTrip(vals, rest);
      ArrayValueRoundTrip(vals, rest);
  }

  lemma ElementsOf(vals: seq<RespValue>)
    ensures WellFormed(Array(vals)) <==> |vals| <= I64_MAX && AllWellFormed(vals)
  {
  }

  lemma ArrayValueRoundTrip(vals: seq<RespValue>, rest: Bytes)
    requires |vals| <= I64_MAX
    requires ParseElems(SerializeAll(vals) + rest, |vals|) == Complete(vals, |SerializeAll(vals)|)
    ensures Parse(Serialize(Array(vals)) + rest) == Complete(Array(vals), |Serialize(Array(vals))|)
  {
    hide Parse, ParseArray, ParseElems, SerializeAll, IntStr;
    var header, body := IntStr(|vals|) + CRLF, SerializeAll(vals) + rest;
    ArrayRoundTrip(vals, body, |SerializeAll(vals)|);
    AfterTag(header + body);
    Retag(ARRAY_TAG, IntStr(|vals|), CRLF, body);
    assert Serialize(Array(vals)) + rest == [ARRAY_TAG] + IntStr(|vals|) + CRLF + body;
  }

  lemma NullRoundTrip(rest: Bytes)
    ensures Parse(Serialize(NullBulkString) + rest) == Complete(NullBulkString, |Serialize(NullBulkString)|)
  {
    hide Parse;
    NegativeOne();
    HeaderRoundTrip(-1, rest);
    AfterTag(IntStr(-1) + CRLF + rest);
    Retag(BULK_TAG, IntStr(-1), CRLF, rest);
    assert NULL_BULK == [BULK_TAG] + IntStr(-1) + CRLF;
  }

  lemma LineValueRoundTrip(v: RespValue, rest: Bytes)
    requires WellFormed(v) && (v.SimpleString? || v.SimpleError?)
    ensures Parse(Serialize(v) + rest) == Complete(v, |Serialize(v)|)
  {
    hide Parse, Line, IsLine;
    LineRoundTrip(v.msg, rest);
    AfterTag(v.msg + CRLF + rest);
    Retag(if v.SimpleString? then STRING_TAG else ERROR_TAG, v.msg, CRLF, rest);
  }

  lemma IntegerRoundTrip(val: i64, rest: Bytes)
    ensures Parse(Serialize(Integer(val)) + rest) == Complete(Integer(val), |Serialize(Integer(val))|)
  {
    hide Parse, Header, IntStr;
    HeaderRoundTrip(val as int, rest);
    AfterTag(IntStr(val as int) + CRLF + rest);
    Retag(INTEGER_TAG, IntStr(val as int), CRLF, rest);
  }

  lemma BulkStringRoundTrip(msg: Bytes, rest: Bytes)
    requires |msg| <= I64_MAX
    ensures Parse(Serialize(BulkString(msg)) + rest) == Complete(BulkString(msg), |Serialize(BulkString(msg))|)
  {
    hide Parse, ParseBulkString, IntStr;
    var header, body := IntStr(|msg|) + CRLF, msg + CRLF + rest;
    BulkRoundTrip(msg, rest);
    AfterTag(header + body);
    Regroup(BULK_TAG, IntStr(|msg|), msg, rest);
  }

  lemma NegativeOne()
    ensures IntStr(-1) == [MINUS, 49]
  {
    assert NatStr(1) == [49];
  }

  lemma {:induction false} ElemsRoundTrip(vs: seq<RespValue>, rest: Bytes)
    requires AllWellFormed(vs)
    ensures ParseElems(SerializeAll(vs) + rest, |vs|) == Complete(vs, |SerializeAll(vs)|)
    decreases vs
  {
    hide ParseElems, Parse, Serialize, SerializeAll, AllWellFormed;
    if |vs| == 0 {
      NoElems(vs, rest);
    } else {
      ApartWellFormed(vs);
      var tail := SerializeAll(vs[1..]) + rest;
      RoundTrip(vs[0], tail);
      ElemsRoundTrip(vs[1..], rest);
      ElemsJoin(vs[0], vs[1..], Serialize(vs[0]), tail);
      SerializeApart(vs, rest);
    }
  }

  lemma NoElems(vs: seq<RespValue>, rest: Bytes)
    requires |vs| == 0
    ensures ParseElems(SerializeAll(vs) + rest, |vs|) == Complete(vs, |SerializeAll(vs)|)
  {
    ElemsUnfold(SerializeAll(vs) + rest, 0);
  }

  lemma ApartWellFormed(vs: seq<RespValue>)
    requires AllWellFormed(vs) && |vs| > 0
    ensures WellFormed(vs[0]) && AllWellFormed(vs[1..])
    ensures [vs[0]] + vs[1..] == vs
  {
    hide WellFormed;
  }

  lemma SerializeApart(vs: seq<RespValue>, rest: Bytes)
    requires |vs| > 0
    ensures SerializeAll(vs) + rest == Serialize(vs[0]) + (SerializeAll(vs[1..]) + rest)
    ensures |SerializeAll(vs)| == |Serialize(vs[0])| + |SerializeAll(vs[1..])|
  {
    hide Serialize, SerializeAll;
    SerializeCons(vs[0], vs[1..]);
    assert [vs[0]] + vs[1..] == vs;
    Regrouped(Serialize(vs[0]), SerializeAll(vs[1..]), rest);
  }

  lemma Regrouped(a: Bytes, b: Bytes, c: Bytes)
    ensures a + b + c == a + (b + c)
  {
  }

  lemma ElemsJoin(v: RespValue, vs: seq<RespValue>, head: Bytes, tail: Bytes)
    requires Parse(head + tail) == Complete(v, |head|) && ParseElems(tail, |vs|).Complete?
    requires ParseElems(tail, |vs|).value == vs
    ensures ParseElems(head + tail, |vs| + 1) == Complete([v] + vs, |head| + ParseElems(tail, |vs|).used)
  {
    hide ParseElems, Parse;
    assert (head + tail)[|head|..] == tail;
    ElemsTogether(head + tail, |vs| + 1);
  }

  /** Exactly the well-formed values survive the wire: no other value can be read back. */
  lemma SurvivesIffWellFormed(v: RespValue, rest: Bytes)
    ensures Parse(Serialize(v) + rest) == Complete(v, |Serialize(v)|) <==> WellFormed(v)
  {
    if WellFormed(v) {
      RoundTrip(v, rest);
    } else if Parse(Serialize(v) + rest).Complete? {
      ParseYields(Serialize(v) + rest);
    }
  }

  /** The empty error is printed, and refused whatever follows it. */
  lemma EmptyErrorIsRefused(rest: Bytes)
    ensures Parse(Serialize(SimpleError([])) + rest).Error?
  {
    hide Parse, Line;
    LineRoundTrip([], rest);
    AfterTag([] + CRLF + rest);
    Retag(ERROR_TAG, [], CRLF, rest);
  }

  /** Whatever was accepted, sending the value again and parsing gives the same value. */
  lemma Canonicalisation(s: Bytes, rest: Bytes)
    requires Parse(s).Complete?
    ensures var v := Parse(s).value; Parse(Serialize(v) + rest) == Complete(v, |Serialize(v)|)
  {
    ParseYields(s);
    RoundTrip(Parse(s).value, rest);
  }

  /** The canonical form of an accepted value is never longer than the bytes it was read from. */
  lemma {:induction false} CanonicalShortest(s: Bytes)
    requires Parse(s).Complete?
    ensures |Serialize(Parse(s).value)| <= Parse(s).used
    decreases |s|, 0
  {
    var tail := s[1..];
    if s[0] == INTEGER_TAG || s[0] == BULK_TAG || s[0] == ARRAY_TAG {
      IntStrShortest(tail[..Find(tail).value]);
      if s[0] == BULK_TAG {
        NegativeOne();
      } else if s[0] == ARRAY_TAG {
        ElemsShortest(tail[Header(tail).used..], Header(tail).value as int);
      }
    }
  }

  lemma {:induction false} ElemsShortest(s: Bytes, n: nat)
    requires ParseElems(s, n).Complete?
    ensures |SerializeAll(ParseElems(s, n).value)| <= ParseElems(s, n).used
    decreases |s|, 1
  {
    if n > 0 {
      hide ParseElems, Parse;
      ElemsApart(s, n);
      CanonicalShortest(s);
      ElemsShortest(s[Parse(s).used..], n - 1);
      SerializeCons(Parse(s).value, ParseElems(s[Parse(s).used..], n - 1).value);
    }
  }

  /** No serialization of a well-formed value starts another's; in particular `serialize` is injective. */
  lemma PrefixFree(v: RespValue, w: RespValue, rest: Bytes)
    requires WellFormed(v) && WellFormed(w)
    requires Serialize(w) == Serialize(v) + rest
    ensures v == w && rest == []
  {
    RoundTrip(v, rest);
    RoundTrip(w, []);
    assert Serialize(w) + [] == Serialize(v) + rest;
  }

  /** Every strict prefix of a serialization is INCOMPLETE. */
  lemma StrictPrefixIncomplete(v: RespValue, k: nat)
    requires WellFormed(v) && k < |Serialize(v)|
    ensures Parse(Serialize(v)[..k]).Incomplete?
  {
    var s := Serialize(v);
    hide Parse, Serialize, WellFormed;
    assert s[..k] + s[k..] == s == s + [];
    RoundTrip(v, []);
    VerdictStable(s[..k], s[k..]);
  }
}
