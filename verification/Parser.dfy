/**
  What the parser computes, as a function of the bytes from the cursor on, and its general laws:
  progress, size, locality and stability of its verdicts.
*/
module Parser {
  import opened ByteStrings
  import opened Decimal
  import opened RespValues

  const STRING_TAG: byte := 43   // '+'
  const ERROR_TAG: byte := 45    // '-'
  const INTEGER_TAG: byte := 58  // ':'
  const BULK_TAG: byte := 36     // '$'
  const ARRAY_TAG: byte := 42    // '*'

  /** The three verdicts; `used` is how far COMPLETE moves the cursor. */
  datatype Outcome<+T> = Complete(value: T, used: nat) | Incomplete | Error

  /** The text of a simple string or error: up to the first CRLF, with no other CR or LF. */
  function Line(tail: Bytes): (o: Outcome<Bytes>)
    ensures o.Complete? ==> |o.value| + 2 == o.used <= |tail| && IsLine(o.value)
  {
    var pos := Find(tail);
    if pos.None? then Incomplete
    else if !IsLine(tail[..pos.value]) then Error
    else Complete(tail[..pos.value], pos.value + 2)
  }

  lemma LineConsumed(tail: Bytes)
    requires Line(tail).Complete?
    ensures tail[..Line(tail).used] == Line(tail).value + CRLF
  {
  }

  /** The number after ':', '$' or '*': non-empty up to the first CRLF and read by `stoll`. */
  function Header(tail: Bytes): (o: Outcome<i64>)
    ensures o.Complete? ==> 3 <= o.used <= |tail|
  {
    var pos := Find(tail);
    if pos.None? then Incomplete
    else if pos.value == 0 then Error
    else
      var n := Stoll(tail[..pos.value]);
      if n.Parsed? then Complete(n.val, pos.value + 2) else Error
  }

  /** The payload of a bulk string of `n` bytes, closed by CRLF. */
  function Payload(tail: Bytes, n: nat): (o: Outcome<Bytes>)
    ensures o.Complete? ==> |o.value| == n && n + 2 == o.used <= |tail|
  {
    if |tail| < n + 2 then Incomplete
    else if tail[n..n + 2] != CRLF then Error
    else Complete(tail[..n], n + 2)
  }

  // Each of the next functions reads the bytes after a type tag; `used` counts the tag.

  function ParseSimpleString(tail: Bytes): (o: Outcome<RespValue>)
    ensures o.Complete? ==> 3 <= o.used <= 1 + |tail|
  {
    match Line(tail)
    case Complete(msg, u) => Complete(SimpleString(msg), 1 + u)
    case Incomplete => Incomplete
    case Error => Error
  }

  function ParseSimpleError(tail: Bytes): (o: Outcome<RespValue>)
    ensures o.Complete? ==> 3 <= o.used <= 1 + |tail|
  {
    match Line(tail)
    case Complete(msg, u) => if msg == [] then Error else Complete(SimpleError(msg), 1 + u)
    case Incomplete => Incomplete
    case Error => Error
  }

  function ParseInteger(tail: Bytes): (o: Outcome<RespValue>)
    ensures o.Complete? ==> 3 <= o.used <= 1 + |tail|
  {
    match Header(tail)
    case Complete(n, u) => Complete(Integer(n), 1 + u)
    case Incomplete => Incomplete
    case Error => Error
  }

  function ParseBulkString(tail: Bytes): (o: Outcome<RespValue>)
    ensures o.Complete? ==> 3 <= o.used <= 1 + |tail|
  {
    match Header(tail)
    case Complete(n, u) =>
      if n == -1 then Complete(NullBulkString, 1 + u)
      else if n < 0 then Error
      else (
        match Payload(tail[u..], n as int)
        case Complete(msg, w) => Complete(BulkString(msg), 1 + u + w)
        case Incomplete => Incomplete
        case Error => Error)
    case Incomplete => Incomplete
    case Error => Error
  }

  function ParseArray(tail: Bytes): (o: Outcome<RespValue>)
    ensures o.Complete? ==> 3 <= o.used <= 1 + |tail|
    decreases |tail|, 2
  {
    match Header(tail)
    case Complete(n, u) =>
      if n < 0 then Error
      else (
        match ParseElems(tail[u..], n as int)
        case Complete(vals, w) => Complete(Array(vals), 1 + u + w)
        case Incomplete => Incomplete
        case Error => Error)
    case Incomplete => Incomplete
    case Error => Error
  }

  /**
    One value at the start of `s`. COMPLETE moves the cursor by at least three bytes and never past
    the end, which is what makes the mutual recursion end.
  */
  function Parse(s: Bytes): (o: Outcome<RespValue>)
    ensures o.Complete? ==> 3 <= o.used <= |s|
    decreases |s|, 0
  {
    if |s| == 0 then Incomplete
    else if s[0] == STRING_TAG then ParseSimpleString(s[1..])
    else if s[0] == BULK_TAG then ParseBulkString(s[1..])
    else if s[0] == INTEGER_TAG then ParseInteger(s[1..])
    else if s[0] == ARRAY_TAG then ParseArray(s[1..])
    else if s[0] == ERROR_TAG then ParseSimpleError(s[1..])
    else Error
  }

  /** Elements already read, `u` bytes of them, in front of those that follow. */
  function Prepend(front: seq<RespValue>, u: nat, o: Outcome<seq<RespValue>>): Outcome<seq<RespValue>> {
    match o
    case Complete(vs, w) => Complete(front + vs, u + w)
    case Incomplete => Incomplete
    case Error => Error
  }

  /** `n` values in a row; the first verdict other than COMPLETE is the verdict. */
  function ParseElems(s: Bytes, n: nat): (o: Outcome<seq<RespValue>>)
    ensures o.Complete? ==> |o.value| == n && o.used <= |s|
    decreases |s|, 1
  {
    if n == 0 then Complete([], 0)
    else
      match Parse(s)
      case Complete(v, u) => Prepend([v], u, ParseElems(s[u..], n - 1))
      case Incomplete => Incomplete
      case Error => Error
  }

  /** What `ParseElems` does with its first element. */
  lemma ElemsUnfold(s: Bytes, n: nat)
    ensures n == 0 ==> ParseElems(s, n) == Complete([], 0)
    ensures n > 0 && Parse(s).Complete? ==>
      var Complete(v, u) := Parse(s); ParseElems(s, n) == Prepend([v], u, ParseElems(s[u..], n - 1))
    ensures n > 0 && Parse(s).Incomplete? ==> ParseElems(s, n).Incomplete?
    ensures n > 0 && Parse(s).Error? ==> ParseElems(s, n).Error?
  {
  }

  /** Elements that are complete come apart into the first and the others. */
  lemma ElemsApart(s: Bytes, n: nat)
    requires n > 0 && ParseElems(s, n).Complete?
    ensures Parse(s).Complete? && ParseElems(s[Parse(s).used..], n - 1).Complete?
    ensures var Complete(v, u) := Parse(s);
      var Complete(vs, w) := ParseElems(s[u..], n - 1);
      ParseElems(s, n) == Complete([v] + vs, u + w)
  {
    hide ParseElems, Parse;
    ElemsUnfold(s, n);
  }

  lemma ElemsTogether(s: Bytes, n: nat)
    requires n > 0 && Parse(s).Complete? && ParseElems(s[Parse(s).used..], n - 1).Complete?
    ensures var Complete(v, u) := Parse(s);
      var Complete(vs, w) := ParseElems(s[u..], n - 1);
      ParseElems(s, n) == Complete([v] + vs, u + w)
  {
    hide ParseElems, Parse;
    ElemsUnfold(s, n);
  }

  /** A leading tag and what comes after it. */
  lemma Retag(tag: byte, a: Bytes, b: Bytes, c: Bytes)
    ensures [tag] + a + b + c == [tag] + (a + b + c)
  {
  }

  lemma Regroup(tag: byte, a: Bytes, b: Bytes, rest: Bytes)
    ensures [tag] + a + CRLF + b + CRLF + rest == [tag] + (a + CRLF + (b + CRLF + rest))
  {
    assert b + CRLF + rest == b + (CRLF + rest);
    Retag(tag, a, CRLF, b + (CRLF + rest));
  }

  /** What follows the tag decides. */
  lemma AfterTag(tail: Bytes)
    ensures Parse([STRING_TAG] + tail) == ParseSimpleString(tail)
    ensures Parse([ERROR_TAG] + tail) == ParseSimpleError(tail)
    ensures Parse([INTEGER_TAG] + tail) == ParseInteger(tail)
    ensures Parse([BULK_TAG] + tail) == ParseBulkString(tail)
    ensures Parse([ARRAY_TAG] + tail) == ParseArray(tail)
  {
    hide ParseSimpleString, ParseSimpleError, ParseInteger, ParseBulkString, ParseArray;
    assert forall tag: byte :: ([tag] + tail)[1..] == tail;
  }

  // ---- Size and shape of what COMPLETE yields ----

  /**
    Every value the parser yields can be sent again, and has at most a third as many nodes as bytes
    were consumed, whatever lengths its array headers announced.
  */
  lemma {:induction false} ParseYields(s: Bytes)
    requires Parse(s).Complete?
    ensures WellFormed(Parse(s).value)
    ensures 3 * Nodes(Parse(s).value) <= Parse(s).used
    decreases |s|, 0
  {
    if s[0] == ARRAY_TAG {
      var tail := s[1..];
      ElemsYield(tail[Header(tail).used..], Header(tail).value as int);
    }
  }

  lemma {:induction false} ElemsYield(s: Bytes, n: nat)
    requires ParseElems(s, n).Complete?
    ensures AllWellFormed(ParseElems(s, n).value)
    ensures 3 * NodesAll(ParseElems(s, n).value) <= ParseElems(s, n).used
    decreases |s|, 1
  {
    hide ParseElems, Parse, Nodes, NodesAll, WellFormed;
    if n == 0 {
      ElemsUnfold(s, n);
      NothingYields();
    } else {
      ElemsApart(s, n);
      ParseYields(s);
      ElemsYield(s[Parse(s).used..], n - 1);
      ConsYields(Parse(s).value, ParseElems(s[Parse(s).used..], n - 1).value);
    }
  }

  lemma NothingYields()
    ensures NodesAll([]) == 0 && AllWellFormed([])
  {
  }

  lemma ConsYields(v: RespValue, vs: seq<RespValue>)
    ensures NodesAll([v] + vs) == Nodes(v) + NodesAll(vs)
    ensures WellFormed(v) && AllWellFormed(vs) ==> AllWellFormed([v] + vs)
  {
    assert ([v] + vs)[1..] == vs;
  }

  // ---- Locality: COMPLETE is settled by the bytes it consumes ----

  lemma LineLocal(s: Bytes, t: Bytes)
    requires Line(s).Complete?
    requires var u := Line(s).used; u <= |t| && s[..u] == t[..u]
    ensures Line(t) == Line(s)
  {
    FindLocal(s, t);
    var p := Find(s).value;
    assert s[..p] == s[..p + 2][..p] && t[..p] == t[..p + 2][..p];
  }

  lemma HeaderLocal(s: Bytes, t: Bytes)
    requires Header(s).Complete?
    requires var u := Header(s).used; u <= |t| && s[..u] == t[..u]
    ensures Header(t) == Header(s)
  {
    FindLocal(s, t);
    var p := Find(s).value;
    assert s[..p] == s[..p + 2][..p] && t[..p] == t[..p + 2][..p];
  }

  /** A numeral and the CRLF that ends it, whatever follows. */
  lemma HeaderOfText(text: Bytes, rest: Bytes)
    requires NoCrlf(text) && Stoll(text).Parsed?
    ensures Header(text + CRLF + rest) == Complete(Stoll(text).val, |text| + 2)
    ensures (text + CRLF + rest)[|text| + 2..] == rest
  {
    FindAfter(text, rest);
    assert (text + CRLF + rest)[..|text|] == text;
  }

  lemma SamePrefixTail(s: Bytes, t: Bytes, k: nat, u: nat)
    requires k <= u <= |s| && u <= |t| && s[..u] == t[..u]
    ensures s[k..][..u - k] == t[k..][..u - k]
    ensures s[..k] == t[..k]
  {
    assert s[k..][..u - k] == s[..u][k..] && t[k..][..u - k] == t[..u][k..];
    assert s[..k] == s[..u][..k] && t[..k] == t[..u][..k];
  }

  lemma PayloadLocal(s: Bytes, t: Bytes, n: nat)
    requires Payload(s, n).Complete?
    requires n + 2 <= |t| && s[..n + 2] == t[..n + 2]
    ensures Payload(t, n) == Payload(s, n)
  {
    assert s[..n] == s[..n + 2][..n] && t[..n] == t[..n + 2][..n];
    assert s[n..n + 2] == s[..n + 2][n..] && t[n..n + 2] == t[..n + 2][n..];
  }

  lemma BulkLocal(s: Bytes, t: Bytes)
    requires ParseBulkString(s).Complete?
    requires var u := ParseBulkString(s).used - 1; u <= |t| && s[..u] == t[..u]
    ensures ParseBulkString(t) == ParseBulkString(s)
  {
    var h, n := Header(s).used, Header(s).value;
    SamePrefixTail(s, t, h, ParseBulkString(s).used - 1);
    HeaderLocal(s, t);
    if n != -1 {
      PayloadLocal(s[h..], t[h..], n as int);
    }
  }

  /**
    COMPLETE depends on the consumed bytes only: any buffer that starts with them, longer or cut
    right after them, gets the same value and cursor.
  */
  lemma {:induction false} ParseLocal(s: Bytes, t: Bytes)
    requires Parse(s).Complete?
    requires var u := Parse(s).used; u <= |t| && s[..u] == t[..u]
    ensures Parse(t) == Parse(s)
    decreases |s|, 0
  {
    SamePrefixTail(s, t, 1, Parse(s).used);
    assert s[..1][0] == t[..1][0];
    var s', t' := s[1..], t[1..];
    if s[0] == STRING_TAG || s[0] == ERROR_TAG {
      LineLocal(s', t');
    } else if s[0] == INTEGER_TAG {
      HeaderLocal(s', t');
    } else if s[0] == BULK_TAG {
      BulkLocal(s', t');
    } else {
      ArrayLocal(s', t');
    }
  }

  lemma {:induction false} ArrayLocal(s: Bytes, t: Bytes)
    requires ParseArray(s).Complete?
    requires var u := ParseArray(s).used - 1; u <= |t| && s[..u] == t[..u]
    ensures ParseArray(t) == ParseArray(s)
    decreases |s|, 2
  {
    var h, n := Header(s).used, Header(s).value;
    SamePrefixTail(s, t, h, ParseArray(s).used - 1);
    HeaderLocal(s, t);
    ElemsLocal(s[h..], t[h..], n as int);
  }

  lemma {:induction false} ElemsLocal(s: Bytes, t: Bytes, n: nat)
    requires ParseElems(s, n).Complete?
    requires var u := ParseElems(s, n).used; u <= |t| && s[..u] == t[..u]
    ensures ParseElems(t, n) == ParseElems(s, n)
    decreases |s|, 1
  {
    hide ParseElems, Parse;
    if n == 0 {
      ElemsUnfold(s, n);
      ElemsUnfold(t, n);
    } else {
      ElemsApart(s, n);
      var u, w := ParseElems(s, n).used, Parse(s).used;
      SamePrefixTail(s, t, w, u);
      ParseLocal(s, t);
      ElemsLocal(s[w..], t[w..], n - 1);
      ElemsTogether(t, n);
    }
  }

  // ---- Stability: more bytes never change a verdict other than INCOMPLETE ----

  lemma SplitAppend(s: Bytes, t: Bytes, u: nat)
    requires u <= |s|
    ensures (s + t)[..u] == s[..u] && (s + t)[u..] == s[u..] + t
  {
  }

  lemma CompleteStable(s: Bytes, t: Bytes)
    requires Parse(s).Complete?
    ensures Parse(s + t) == Parse(s)
  {
    SplitAppend(s, t, Parse(s).used);
    ParseLocal(s, s + t);
  }

  lemma LineStable(s: Bytes, t: Bytes)
    requires !Line(s).Incomplete?
    ensures Line(s + t) == Line(s)
  {
    var p := Find(s).value;
    assert (s + t)[..p + 2] == s[..p + 2] && (s + t)[..p] == s[..p];
    FindLocal(s, s + t);
  }

  lemma HeaderStable(s: Bytes, t: Bytes)
    requires !Header(s).Incomplete?
    ensures Header(s + t) == Header(s)
  {
    var p := Find(s).value;
    assert (s + t)[..p + 2] == s[..p + 2] && (s + t)[..p] == s[..p];
    FindLocal(s, s + t);
  }

  lemma BulkErrorStable(s: Bytes, t: Bytes)
    requires ParseBulkString(s).Error?
    ensures ParseBulkString(s + t).Error?
  {
    HeaderStable(s, t);
    if Header(s).Complete? && Header(s).value >= 0 {
      var h, n := Header(s).used, Header(s).value as int;
      SplitAppend(s, t, h);
      assert (s[h..] + t)[n..n + 2] == s[h..][n..n + 2];
    }
  }

  lemma {:induction false} ErrorStable(s: Bytes, t: Bytes)
    requires Parse(s).Error?
    ensures Parse(s + t).Error?
    decreases |s|, 0
  {
    var s' := s[1..];
    assert (s + t)[1..] == s' + t;
    if s[0] == STRING_TAG || s[0] == ERROR_TAG {
      LineStable(s', t);
    } else if s[0] == INTEGER_TAG {
      HeaderStable(s', t);
    } else if s[0] == BULK_TAG {
      BulkErrorStable(s', t);
    } else if s[0] == ARRAY_TAG {
      ArrayErrorStable(s', t);
    }
  }

  lemma {:induction false} ArrayErrorStable(s: Bytes, t: Bytes)
    requires ParseArray(s).Error?
    ensures ParseArray(s + t).Error?
    decreases |s|, 2
  {
    HeaderStable(s, t);
    if Header(s).Complete? && Header(s).value >= 0 {
      var h := Header(s).used;
      SplitAppend(s, t, h);
      ElemsErrorStable(s[h..], t, Header(s).value as int);
    }
  }

  lemma {:induction false} ElemsErrorStable(s: Bytes, t: Bytes, n: nat)
    requires ParseElems(s, n).Error?
    ensures ParseElems(s + t, n).Error?
    decreases |s|, 1
  {
    hide Parse, ParseElems;
    if n == 0 || Parse(s).Incomplete? {
      ElemsUnfold(s, n);
    } else if Parse(s).Error? {
      ErrorStable(s, t);
      ElemsUnfold(s + t, n);
    } else {
      ElemsUnfold(s, n);
      ElemsUnfold(s + t, n);
      CompleteStable(s, t);
      SplitAppend(s, t, Parse(s).used);
      ElemsErrorStable(s[Parse(s).used..], t, n - 1);
    }
  }

  /** A COMPLETE or ERROR verdict is final, and COMPLETE does not need a byte beyond its cursor. */
  lemma VerdictStable(s: Bytes, t: Bytes)
    ensures Parse(s).Complete? ==> Parse(s + t) == Parse(s) == Parse(s[..Parse(s).used])
    ensures Parse(s).Error? ==> Parse(s + t).Error?
  {
    if Parse(s).Complete? {
      var u := Parse(s).used;
      CompleteStable(s, t);
      assert s[..u] == s[..u][..u];
      ParseLocal(s, s[..u]);
    } else if Parse(s).Error? {
      ErrorStable(s, t);
    }
  }
}
