/**
  The protocol in its own bytes, apart from the parser and the printer: 43 is '+', 45 '-', 58 ':',
  36 '$', 42 '*', 48 to 57 are the digits, and 13 10 ends a line.
*/
module Protocol {
  import opened ByteStrings
  import opened RespValues

  // ---- Numbers ----

  /** The decimal digits of `n`, leading zeros allowed. */
  predicate Digits(ds: Bytes, n: nat) {
    && |ds| > 0
    && var last := ds[|ds| - 1] as int;
       48 <= last <= 57 && n % 10 == last - 48 && if |ds| == 1 then n < 10 else Digits(ds[..|ds| - 1], n / 10)
  }

  predicate Fits64(n: int) {
    -0x8000_0000_0000_0000 <= n <= 0x7FFF_FFFF_FFFF_FFFF
  }

  /** White space, a sign if wanted, the digits of a number, and something that does not start with a digit. */
  predicate Parts(n: int, ws: Bytes, sign: Bytes, ds: Bytes, junk: Bytes) {
    && (forall i :: 0 <= i < |ws| ==> ws[i] == 32 || 9 <= ws[i] <= 13)
    && (if sign == [45] then n <= 0 else n >= 0 && (sign == [] || sign == [43]))
    && Digits(ds, if n < 0 then -n else n)
    && (|junk| > 0 ==> !(48 <= junk[0] <= 57))
  }

  /** A text that is read as `n`, up to `junk`. */
  ghost predicate Reads(s: Bytes, n: int, junk: Bytes) {
    exists ws, sign, ds :: Parts(n, ws, sign, ds, junk) && s == ws + sign + ds + junk
  }

  /** A number or length on the wire: any spelling that is read as a 64-bit integer, with no CRLF inside. */
  ghost predicate Numeral(num: Bytes, n: int) {
    && (forall i :: 0 <= i < |num| - 1 ==> !(num[i] == 13 && num[i + 1] == 10))
    && Fits64(n) && exists junk :: Reads(num, n, junk)
  }

  /** The one spelling that is printed. */
  predicate Prints(s: Bytes, x: int) {
    var ds := if x < 0 && |s| > 0 then s[1..] else s;
    Digits(ds, if x < 0 then -x else x) && (ds[0] == 48 ==> |ds| == 1) && (x < 0 ==> s[0] == 45)
  }

  // ---- Values ----

  predicate OneLine(msg: Bytes) {
    forall i :: 0 <= i < |msg| ==> msg[i] != 13 && msg[i] != 10
  }

  /** `b` is a sentence for `v`. */
  ghost predicate Encodes(v: RespValue, b: Bytes)
    decreases v
  {
    match v
    case NullBulkString => exists num :: Numeral(num, -1) && b == [36] + num + [13, 10]
    case SimpleString(msg) => OneLine(msg) && b == [43] + msg + [13, 10]
    case SimpleError(msg) => OneLine(msg) && msg != [] && b == [45] + msg + [13, 10]
    case Integer(val) => exists num :: Numeral(num, val as int) && b == [58] + num + [13, 10]
    case BulkString(msg) => exists num :: Numeral(num, |msg|) && b == [36] + num + [13, 10] + msg + [13, 10]
    case Array(vals) =>
      exists num, body :: Numeral(num, |vals|) && b == [42] + num + [13, 10] + body && EncodesAll(vals, body)
  }

  ghost predicate EncodesAll(vs: seq<RespValue>, b: Bytes)
    decreases vs
  {
    if |vs| == 0 then b == []
    else exists head, tail :: b == head + tail && Encodes(vs[0], head) && EncodesAll(vs[1..], tail)
  }

  /** `b` is the one sentence for `v` that is printed; of values no sentence stands for, what is printed too. */
  ghost predicate Printed(v: RespValue, b: Bytes)
    decreases v
  {
    match v
    case NullBulkString => b == [36, 45, 49, 13, 10]
    case SimpleString(msg) => b == [43] + msg + [13, 10]
    case SimpleError(msg) => b == [45] + msg + [13, 10]
    case Integer(val) => exists num :: Prints(num, val as int) && b == [58] + num + [13, 10]
    case BulkString(msg) => exists num :: Prints(num, |msg|) && b == [36] + num + [13, 10] + msg + [13, 10]
    case Array(vals) =>
      exists num, body :: Prints(num, |vals|) && b == [42] + num + [13, 10] + body && PrintedAll(vals, body)
  }

  ghost predicate PrintedAll(vs: seq<RespValue>, b: Bytes)
    decreases vs
  {
    if |vs| == 0 then b == []
    else exists head, tail :: b == head + tail && Printed(vs[0], head) && PrintedAll(vs[1..], tail)
  }

  // ---- Buffers that wait for more ----

  ghost predicate NoLineEnd(s: Bytes) {
    forall i :: 0 <= i < |s| - 1 ==> !(s[i] == 13 && s[i + 1] == 10)
  }

  /** A known tag and no line yet, a bulk string short of its payload, or an array short of an element. */
  ghost predicate Waits(s: Bytes)
    decreases |s|, 0
  {
    || s == []
    || (s[0] in [43, 45, 58, 36, 42] && NoLineEnd(s[1..]))
    || (exists num, n: nat, rest :: Numeral(num, n) && s == [36] + num + [13, 10] + rest && |rest| < n + 2)
    || (exists num, n: nat, rest :: Numeral(num, n) && s == [42] + num + [13, 10] + rest && WaitsWithin(rest, n))
  }

  /** Of `n` elements, some are there and the next one waits. */
  ghost predicate WaitsWithin(s: Bytes, n: nat)
    decreases |s|, 1
  {
    && n > 0
    && (Waits(s)
        || exists v, head: Bytes, tail: Bytes ::
             s == head + tail && |tail| < |s| && Encodes(v, head) && WaitsWithin(tail, n - 1))
  }
}
