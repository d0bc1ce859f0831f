/** The parser accepts exactly the sentences of the protocol, and the printer prints one for each value. */
module Grammar {
  import opened ByteStrings
  import opened Decimal
  import opened Numerals
  import opened RespValues
  import opened Protocol
  import opened Parser
  import opened Serializer

  // ---- Numbers ----

  lemma {:induction false} DigitsIff(ds: Bytes, n: nat)
    ensures Digits(ds, n) <==> |ds| > 0 && AllDigits(ds) && DigitsValue(ds) == n
    decreases |ds|
  {
    if |ds| > 1 {
      var front := ds[..|ds| - 1];
      DigitsIff(front, n / 10);
      assert AllDigits(ds) <==> AllDigits(front) && IsDigit(ds[|ds| - 1]);
    } else if |ds| == 1 {
      assert DigitsValue(ds[..0]) == 0;
    }
  }

  /** A text of the protocol's shape is read by `stoll` as that number, up to the junk. */
  lemma ReadsIsStoll(s: Bytes, n: int, junk: Bytes)
    requires Reads(s, n, junk)
    ensures |junk| <= |s|
    ensures Stoll(s) == if Fits64(n) then Parsed(n as i64, |s| - |junk|) else OutOfRange
  {
    hide Stoll, DigitsValue, Digits;
    var ws, sign, ds :| Parts(n, ws, sign, ds, junk) && s == ws + sign + ds + junk;
    DigitsIff(ds, if n < 0 then -n else n);
    StollReads(ws, sign, ds, junk);
  }

  lemma StollIsReads(s: Bytes) returns (n: int, junk: Bytes)
    requires !Stoll(s).Invalid?
    ensures Reads(s, n, junk)
  {
    hide Stoll, Digits;
    var ws, sign, ds;
    ws, sign, ds, junk := StollSplits(s);
    DigitsIff(ds, DigitsValue(ds));
    n := if sign == [MINUS] then -(DigitsValue(ds) as int) else DigitsValue(ds);
    assert Parts(n, ws, sign, ds, junk);
  }

  /** `stoll` refuses exactly the texts that read as no number. */
  lemma StollExactly(s: Bytes)
    ensures Stoll(s).Invalid? <==> !exists n, junk :: Reads(s, n, junk)
    ensures Stoll(s).OutOfRange? <==> exists n, junk :: Reads(s, n, junk) && !Fits64(n)
  {
    hide Stoll, Reads;
    if n, junk :| Reads(s, n, junk) {
      ReadsIsStoll(s, n, junk);
    }
    if n, junk :| Reads(s, n, junk) && !Fits64(n) {
      ReadsIsStoll(s, n, junk);
    }
    if !Stoll(s).Invalid? {
      var n, junk := StollIsReads(s);
      ReadsIsStoll(s, n, junk);
    }
  }

  /** `parse_ll` accepts exactly the texts that are a 64-bit number to their last byte. */
  lemma ParseLLExactly(s: Bytes, n: int)
    ensures Reads(s, n, []) && Fits64(n) <==> ParseLL(s).Parsed? && ParseLL(s).val as int == n
  {
    hide Stoll, Reads;
    if Reads(s, n, []) {
      ReadsIsStoll(s, n, []);
    }
    if ParseLL(s).Parsed? {
      var m, junk := StollIsReads(s);
      ReadsIsStoll(s, m, junk);
      assert junk == [];
    }
  }

  lemma NoCrlfIff(s: Bytes)
    ensures NoCrlf(s) <==> NoLineEnd(s)
  {
    if NoLineEnd(s) {
      assert forall j: nat :: !CrlfAt(s, j);
    }
    if NoCrlf(s) {
      forall i | 0 <= i < |s| - 1
        ensures !(s[i] == 13 && s[i + 1] == 10)
      {
        assert !CrlfAt(s, i);
      }
    }
  }

  /** `stoll` reads exactly the spellings of the grammar. */
  lemma NumeralIffRead(num: Bytes, n: int)
    ensures Numeral(num, n) <==> NoCrlf(num) && Stoll(num).Parsed? && Stoll(num).val as int == n
  {
    hide Stoll, Reads, NoCrlf;
    NoCrlfIff(num);
    if junk :| Reads(num, n, junk) {
      ReadsIsStoll(num, n, junk);
    }
    if Stoll(num).Parsed? {
      var m, junk := StollIsReads(num);
      ReadsIsStoll(num, m, junk);
    }
  }

  /** `to_string` prints exactly the one spelling. */
  lemma PrintsIff(s: Bytes, x: int)
    ensures Prints(s, x) <==> s == IntStr(x)
  {
    hide DigitsValue, Digits, NatStr;
    var m := if x < 0 then -x else x;
    NatStrLead(m);
    DigitsOfNatStr(m);
    DigitsIff(NatStr(m), m);
    if x < 0 {
      assert IntStr(x)[1..] == NatStr(m);
    }
    if Prints(s, x) {
      var ds := if x < 0 && |s| > 0 then s[1..] else s;
      DigitsIff(ds, m);
      NatStrOfDigits(ds);
      assert x < 0 ==> s == [s[0]] + ds;
    }
  }

  lemma HeaderOfNumeral(num: Bytes, n: i64, rest: Bytes)
    requires Numeral(num, n as int)
    ensures Header(num + CRLF + rest) == Complete(n, |num| + 2)
    ensures (num + CRLF + rest)[|num| + 2..] == rest
  {
    hide Numeral, Stoll, Header;
    NumeralIffRead(num, n as int);
    HeaderOfText(num, rest);
  }

  lemma NumeralOfHeader(tail: Bytes) returns (num: Bytes)
    requires Header(tail).Complete?
    ensures Numeral(num, Header(tail).value as int)
    ensures Header(tail).used == |num| + 2 && tail[..|num| + 2] == num + CRLF
    ensures forall w :: |num| + 2 <= w <= |tail| ==> tail[..w] == num + CRLF + tail[|num| + 2..][..w - |num| - 2]
  {
    hide Numeral, Stoll;
    num := tail[..Find(tail).value];
    forall j: nat
      ensures !CrlfAt(num, j)
    {
      assert j < |num| ==> !CrlfAt(tail, j);
    }
    NumeralIffRead(num, Header(tail).value as int);
  }

  // ---- Everything accepted is a sentence ----

  lemma NullIsSentence(tail: Bytes)
    requires Header(tail).Complete? && Header(tail).value == -1
    ensures Encodes(NullBulkString, [BULK_TAG] + tail[..Header(tail).used])
  {
    hide Numeral, Header;
    var num := NumeralOfHeader(tail);
    assert [BULK_TAG] + tail[..Header(tail).used] == [BULK_TAG] + num + CRLF;
  }

  lemma PayloadIsSentence(tail: Bytes)
    requires Header(tail).Complete? && Header(tail).value >= 0
    requires Payload(tail[Header(tail).used..], Header(tail).value as int).Complete?
    ensures var Complete(n, u) := Header(tail);
      var Complete(msg, w) := Payload(tail[u..], n as int);
      Encodes(BulkString(msg), [BULK_TAG] + tail[..u + w])
  {
    hide Numeral, Header;
    var num := NumeralOfHeader(tail);
    var n, rest := Header(tail).value as int, tail[|num| + 2..];
    assert rest[..n + 2] == rest[..n] + CRLF;
    assert [BULK_TAG] + tail[..|num| + 2 + n + 2] == [BULK_TAG] + num + CRLF + rest[..n] + CRLF;
  }

  lemma BulkIsSentence(tail: Bytes)
    requires ParseBulkString(tail).Complete?
    ensures Encodes(ParseBulkString(tail).value, [BULK_TAG] + tail[..ParseBulkString(tail).used - 1])
  {
    hide Encodes, Header, Payload;
    if Header(tail).value == -1 {
      NullIsSentence(tail);
    } else {
      PayloadIsSentence(tail);
    }
  }

  lemma {:induction false} ParsedIsSentence(s: Bytes)
    requires Parse(s).Complete?
    ensures Encodes(Parse(s).value, s[..Parse(s).used])
    decreases |s|, 0
  {
    hide Numeral, Header, Line;
    var tail, u := s[1..], Parse(s).used;
    assert s[..u] == [s[0]] + tail[..u - 1];
    if s[0] == STRING_TAG || s[0] == ERROR_TAG {
      LineConsumed(tail);
      LineValue(tail);
    } else if s[0] == INTEGER_TAG {
      var num := NumeralOfHeader(tail);
      assert s[..u] == [INTEGER_TAG] + num + CRLF;
    } else if s[0] == BULK_TAG {
      BulkIsSentence(tail);
    } else {
      ArrayIsSentence(tail);
    }
  }

  lemma LineValue(tail: Bytes)
    ensures Line(tail).Complete? ==> IsLine(Line(tail).value)
  {
  }

  lemma {:induction false} ArrayIsSentence(tail: Bytes)
    requires ParseArray(tail).Complete?
    ensures Encodes(ParseArray(tail).value, [ARRAY_TAG] + tail[..ParseArray(tail).used - 1])
    decreases |tail|, 2
  {
    hide Numeral, ParseElems, Parse, EncodesAll, Header;
    var num := NumeralOfHeader(tail);
    var n := Header(tail).value as int;
    var rest := tail[|num| + 2..];
    ElemsAreSentences(rest, n);
    var body := rest[..ParseElems(rest, n).used];
    assert tail[..ParseArray(tail).used - 1] == num + CRLF + body;
    assert [ARRAY_TAG] + (num + CRLF + body) == [ARRAY_TAG] + num + CRLF + body;
  }

  lemma {:induction false} ElemsAreSentences(s: Bytes, n: nat)
    requires ParseElems(s, n).Complete?
    ensures EncodesAll(ParseElems(s, n).value, s[..ParseElems(s, n).used])
    decreases |s|, 1
  {
    hide Parse, ParseElems, Encodes;
    ElemsUnfold(s, 0);
    if n > 0 {
      ElemsApart(s, n);
      var Complete(v, u) := Parse(s);
      var Complete(vs, w) := ParseElems(s[u..], n - 1);
      ParsedIsSentence(s);
      ElemsAreSentences(s[u..], n - 1);
      assert s[..u + w] == s[..u] + s[u..][..w];
      assert ([v] + vs)[1..] == vs;
    }
  }

  // ---- Every sentence is accepted, and consumed whole ----

  lemma LineSentence(msg: Bytes)
    requires IsLine(msg)
    ensures ParseSimpleString(msg + CRLF) == Complete(SimpleString(msg), |msg| + 3)
    ensures msg != [] ==> ParseSimpleError(msg + CRLF) == Complete(SimpleError(msg), |msg| + 3)
  {
    FindAfterLine(msg, []);
    assert msg + CRLF + [] == msg + CRLF;
    assert (msg + CRLF)[..|msg|] == msg;
  }

  lemma BulkSentence(num: Bytes, msg: Bytes)
    requires Numeral(num, |msg|)
    ensures ParseBulkString(num + CRLF + (msg + CRLF)) == Complete(BulkString(msg), |num| + |msg| + 5)
  {
    HeaderOfNumeral(num, |msg| as i64, msg + CRLF);
    assert (msg + CRLF)[..|msg|] == msg && (msg + CRLF)[|msg|..|msg| + 2] == CRLF;
  }

  lemma NumberSentence(num: Bytes, n: i64)
    requires Numeral(num, n as int)
    ensures ParseInteger(num + CRLF) == Complete(Integer(n), |num| + 3)
    ensures n == -1 ==> ParseBulkString(num + CRLF) == Complete(NullBulkString, |num| + 3)
  {
    HeaderOfNumeral(num, n, []);
    assert num + CRLF + [] == num + CRLF;
  }

  lemma LineLeaf(v: RespValue, b: Bytes)
    requires Encodes(v, b) && (v.SimpleString? || v.SimpleError?)
    ensures Parse(b) == Complete(v, |b|)
  {
    hide Parse, ParseSimpleString, ParseSimpleError, IsLine;
    assert b == [b[0]] + (v.msg + CRLF);
    AfterTag(v.msg + CRLF);
    LineSentence(v.msg);
  }

  lemma NumberLeaf(v: RespValue, b: Bytes)
    requires Encodes(v, b) && (v.NullBulkString? || v.Integer?)
    ensures Parse(b) == Complete(v, |b|)
  {
    hide Numeral, Parse, ParseBulkString, ParseInteger;
    var n := if v.Integer? then v.val else -1;
    var tag := if v.Integer? then INTEGER_TAG else BULK_TAG;
    var num :| Numeral(num, n as int) && b == [tag] + num + CRLF;
    assert b == [tag] + (num + CRLF);
    AfterTag(num + CRLF);
    NumberSentence(num, n);
  }

  lemma BulkLeaf(msg: Bytes, b: Bytes)
    requires Encodes(BulkString(msg), b)
    ensures Parse(b) == Complete(BulkString(msg), |b|)
  {
    hide Numeral, Parse, ParseBulkString;
    var num :| Numeral(num, |msg|) && b == [BULK_TAG] + num + CRLF + msg + CRLF;
    Regroup(BULK_TAG, num, msg, []);
    assert b + [] == b && msg + CRLF + [] == msg + CRLF;
    AfterTag(num + CRLF + (msg + CRLF));
    BulkSentence(num, msg);
  }

  lemma ArrayParts(vals: seq<RespValue>, b: Bytes) returns (num: Bytes, body: Bytes)
    requires Encodes(Array(vals), b)
    ensures Numeral(num, |vals|) && b == [ARRAY_TAG] + (num + CRLF + body) && EncodesAll(vals, body)
  {
    hide Numeral, EncodesAll;
    num, body :| Numeral(num, |vals|) && b == [ARRAY_TAG] + num + CRLF + body && EncodesAll(vals, body);
    assert [ARRAY_TAG] + num + CRLF + body == [ARRAY_TAG] + (num + CRLF + body);
  }

  lemma {:induction false} SentenceIsParsed(v: RespValue, b: Bytes)
    requires Encodes(v, b)
    ensures Parse(b) == Complete(v, |b|)
    decreases v
  {
    hide Numeral, Parse, ParseArray, Encodes, EncodesAll;
    match v
    case NullBulkString => NumberLeaf(v, b);
    case SimpleString(_) => LineLeaf(v, b);
    case SimpleError(_) => LineLeaf(v, b);
    case Integer(_) => NumberLeaf(v, b);
    case BulkString(msg) => BulkLeaf(msg, b);
    case Array(vals) =>
      var num, body := ArrayParts(vals, b);
      SentencesAreParsed(vals, body);
      ArraySentence(num, vals, body);
      AfterTag(num + CRLF + body);
  }

  lemma NumeralFits(num: Bytes, n: int)
    ensures Numeral(num, n) ==> InI64(n)
  {
  }

  lemma ArraySentence(num: Bytes, vals: seq<RespValue>, body: Bytes)
    requires Numeral(num, |vals|) && ParseElems(body, |vals|) == Complete(vals, |body|)
    ensures ParseArray(num + CRLF + body) == Complete(Array(vals), |num| + |body| + 3)
  {
    hide Numeral, ParseElems;
    NumeralFits(num, |vals|);
    HeaderOfNumeral(num, |vals| as i64, body);
  }

  lemma {:induction false} SentencesAreParsed(vs: seq<RespValue>, b: Bytes)
    requires EncodesAll(vs, b)
    ensures ParseElems(b, |vs|) == Complete(vs, |b|)
    decreases vs
  {
    hide Parse, ParseElems, Encodes;
    ElemsUnfold(b, |vs|);
    if |vs| > 0 {
      var head, tail :| b == head + tail && Encodes(vs[0], head) && EncodesAll(vs[1..], tail);
      SentenceIsParsed(vs[0], head);
      CompleteStable(head, tail);
      assert b[|head|..] == tail;
      SentencesAreParsed(vs[1..], tail);
      assert [vs[0]] + vs[1..] == vs;
    }
  }

  /** The parser completes with `v` after `u` bytes exactly when those bytes are a sentence for `v`. */
  lemma AcceptsExactly(s: Bytes, v: RespValue, u: nat)
    ensures Parse(s) == Complete(v, u) <==> u <= |s| && Encodes(v, s[..u])
  {
    hide Parse, Encodes;
    if Parse(s) == Complete(v, u) {
      ParsedIsSentence(s);
    } else if u <= |s| && Encodes(v, s[..u]) {
      SentenceIsParsed(v, s[..u]);
      assert s[..u] + s[u..] == s;
      CompleteStable(s[..u], s[u..]);
      assert false;
    }
  }

  // ---- The printer ----

  /** What is printed is, byte for byte, what the protocol says. */
  lemma {:induction false} PrintsExactly(v: RespValue, b: Bytes)
    ensures Printed(v, b) <==> b == Serialize(v)
    decreases v
  {
    match v
    case NullBulkString =>
    case SimpleString(_) =>
    case SimpleError(_) =>
    case Integer(val) => PrintsNumber(val as int);
    case BulkString(msg) => PrintsNumber(|msg|);
    case Array(vals) =>
      forall body
        ensures PrintedAll(vals, body) <==> body == SerializeAll(vals)
      {
        PrintsAllExactly(vals, body);
      }
      ArrayPrinted(vals, b);
  }

  lemma ArrayPrinted(vals: seq<RespValue>, b: Bytes)
    requires forall body :: PrintedAll(vals, body) <==> body == SerializeAll(vals)
    ensures Printed(Array(vals), b) <==> b == Serialize(Array(vals))
  {
    hide PrintedAll, SerializeAll, IntStr, Prints;
    PrintsNumber(|vals|);
    assert PrintedAll(vals, SerializeAll(vals)) && Prints(IntStr(|vals|), |vals|);
  }

  lemma PrintsNumber(x: int)
    ensures forall num :: Prints(num, x) <==> num == IntStr(x)
  {
    hide Prints, IntStr;
    forall num
      ensures Prints(num, x) <==> num == IntStr(x)
    {
      PrintsIff(num, x);
    }
  }

  lemma {:induction false} PrintsAllExactly(vs: seq<RespValue>, b: Bytes)
    ensures PrintedAll(vs, b) <==> b == SerializeAll(vs)
    decreases vs
  {
    hide Printed, Serialize;
    if |vs| > 0 {
      forall head
        ensures Printed(vs[0], head) <==> head == Serialize(vs[0])
      {
        PrintsExactly(vs[0], head);
      }
      forall tail
        ensures PrintedAll(vs[1..], tail) <==> tail == SerializeAll(vs[1..])
      {
        PrintsAllExactly(vs[1..], tail);
      }
    }
  }

  // ---- The other two verdicts ----

  lemma HeaderApart(tail: Bytes) returns (num: Bytes, rest: Bytes)
    requires Header(tail).Complete?
    ensures Numeral(num, Header(tail).value as int) && tail == num + CRLF + rest
    ensures rest == tail[Header(tail).used..]
  {
    hide Numeral, Header;
    num := NumeralOfHeader(tail);
    rest := tail[|num| + 2..];
  }

  lemma NoLineIff(tail: Bytes)
    ensures Line(tail).Incomplete? <==> NoLineEnd(tail)
    ensures Header(tail).Incomplete? <==> NoLineEnd(tail)
  {
    NoCrlfIff(tail);
    assert Find(tail).Some? ==> CrlfAt(tail, Find(tail).value);
  }

  lemma {:induction false} IncompleteWaits(s: Bytes)
    requires Parse(s).Incomplete?
    ensures Waits(s)
    decreases |s|, 0
  {
    hide Numeral, Encodes, Line, Header, ParseElems, Parse, NoLineEnd;
    ParseByTag(s);
    if s != [] && !NoLineEnd(s[1..]) {
      var tail := s[1..];
      NoLineIff(tail);
      assert Header(tail).Complete?;
      var num, rest := HeaderApart(tail);
      var n := Header(tail).value as int;
      assert s == [s[0]] + tail;
      assert s == [s[0]] + num + [13, 10] + rest;
      if s[0] == ARRAY_TAG {
        ElemsWait(rest, n);
      }
    }
  }

  /** Which routine judges what follows the first byte. */
  lemma ParseByTag(s: Bytes)
    ensures s == [] ==> Parse(s).Incomplete?
    ensures s != [] && s[0] == 43 ==> Parse(s) == ParseSimpleString(s[1..])
    ensures s != [] && s[0] == 45 ==> Parse(s) == ParseSimpleError(s[1..])
    ensures s != [] && s[0] == 58 ==> Parse(s) == ParseInteger(s[1..])
    ensures s != [] && s[0] == 36 ==> Parse(s) == ParseBulkString(s[1..])
    ensures s != [] && s[0] == 42 ==> Parse(s) == ParseArray(s[1..])
    ensures s != [] && s[0] !in [43, 45, 58, 36, 42] ==> Parse(s).Error?
  {
  }

  lemma {:induction false} ElemsWait(s: Bytes, n: nat)
    requires ParseElems(s, n).Incomplete?
    ensures WaitsWithin(s, n)
    decreases |s|, 1
  {
    hide Encodes, Waits, Parse, ParseElems;
    ElemsUnfold(s, n);
    if n > 0 && Parse(s).Complete? {
      var Complete(v, u) := Parse(s);
      AcceptsExactly(s, v, u);
      ElemsWait(s[u..], n - 1);
      assert s == s[..u] + s[u..];
    } else if n > 0 {
      IncompleteWaits(s);
    }
  }

  lemma {:induction false} WaitsIncomplete(s: Bytes)
    requires Waits(s)
    ensures Parse(s).Incomplete?
    decreases |s|, 0
  {
    hide Numeral, Encodes, Parse, NoLineEnd, WaitsWithin;
    if s == [] || (s[0] in [43, 45, 58, 36, 42] && NoLineEnd(s[1..])) {
      TagWaits(s);
    } else if num, n: nat, rest :| Numeral(num, n) && s == [36] + num + [13, 10] + rest && |rest| < n + 2 {
      BulkWaits(num, n, rest);
    } else {
      var num, n: nat, rest :| Numeral(num, n) && s == [42] + num + [13, 10] + rest && WaitsWithin(rest, n);
      WithinIncomplete(rest, n);
      ArrayWaits(num, n, rest);
    }
  }

  lemma TagWaits(s: Bytes)
    requires s == [] || (s[0] in [43, 45, 58, 36, 42] && NoLineEnd(s[1..]))
    ensures Parse(s).Incomplete?
  {
    hide Parse, Line, Header, NoLineEnd;
    ParseByTag(s);
    if s != [] {
      NoLineIff(s[1..]);
    }
  }

  lemma BulkWaits(num: Bytes, n: nat, rest: Bytes)
    requires Numeral(num, n) && |rest| < n + 2
    ensures Parse([36] + num + [13, 10] + rest).Incomplete?
  {
    hide Parse, Numeral, Header;
    NumeralFits(num, n);
    HeaderOfNumeral(num, n as i64, rest);
    Retag(36, num, CRLF, rest);
    AfterTag(num + CRLF + rest);
  }

  lemma ArrayWaits(num: Bytes, n: nat, rest: Bytes)
    requires Numeral(num, n) && ParseElems(rest, n).Incomplete?
    ensures Parse([42] + num + [13, 10] + rest).Incomplete?
  {
    hide Parse, ParseElems, Numeral, Header;
    NumeralFits(num, n);
    HeaderOfNumeral(num, n as i64, rest);
    Retag(42, num, CRLF, rest);
    AfterTag(num + CRLF + rest);
  }

  lemma {:induction false} WithinIncomplete(s: Bytes, n: nat)
    requires WaitsWithin(s, n)
    ensures ParseElems(s, n).Incomplete?
    decreases |s|, 1
  {
    hide Encodes, Waits, Parse, ParseElems;
    ElemsUnfold(s, n);
    if Waits(s) {
      WaitsIncomplete(s);
    } else {
      var v, head: Bytes, tail: Bytes :|
        s == head + tail && |tail| < |s| && Encodes(v, head) && WaitsWithin(tail, n - 1);
      assert s[..|head|] == head && s[|head|..] == tail;
      AcceptsExactly(s, v, |head|);
      WithinIncomplete(tail, n - 1);
    }
  }

  /** INCOMPLETE exactly for the buffers that wait, so ERROR for what neither starts with a sentence nor waits. */
  lemma IncompleteExactly(s: Bytes)
    ensures Parse(s).Incomplete? <==> Waits(s)
    ensures Parse(s).Error? <==> !Waits(s) && !exists v, u :: 0 <= u <= |s| && Encodes(v, s[..u])
  {
    hide Parse, Waits, Encodes;
    if Parse(s).Incomplete? {
      IncompleteWaits(s);
    }
    if Waits(s) {
      WaitsIncomplete(s);
    }
    if Parse(s).Complete? {
      AcceptsExactly(s, Parse(s).value, Parse(s).used);
    }
    if v, u :| 0 <= u <= |s| && Encodes(v, s[..u]) {
      AcceptsExactly(s, v, u);
    }
  }
}
