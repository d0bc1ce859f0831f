/**
  Signed 64-bit integers in decimal: `std::to_string` and `std::stoll`.

  `std::stoll` is `strtoll` in base 10 (section 7.22.1.4 of ISO C11): leading white space, an
  optional sign, the longest run of digits, anything after it ignored, and a range check.
*/
module Decimal {
  import opened ByteStrings

  newtype i64 = x: int | -0x8000_0000_0000_0000 <= x < 0x8000_0000_0000_0000

  const I64_MIN: int := -0x8000_0000_0000_0000
  const I64_MAX: int := 0x7FFF_FFFF_FFFF_FFFF

  predicate InI64(x: int) {
    I64_MIN <= x <= I64_MAX
  }

  const MINUS: byte := 45
  const PLUS: byte := 43

  predicate IsSpace(b: byte) {
    b == 32 || 9 <= b <= 13
  }

  predicate IsDigit(b: byte) {
    48 <= b <= 57
  }

  predicate AllDigits(s: Bytes) {
    forall i :: 0 <= i < |s| ==> IsDigit(s[i])
  }

  // ---- std::to_string ----

  function NatStr(n: nat): (r: Bytes)
    ensures |r| > 0 && AllDigits(r)
  {
    if n < 10 then [(48 + n) as byte]
    else NatStr(n / 10) + [(48 + n % 10) as byte]
  }

  function IntStr(x: int): (r: Bytes)
    ensures |r| > 0 && IsLine(r)
  {
    if x < 0 then [MINUS] + NatStr(-x) else NatStr(x)
  }

  // ---- std::stoll ----

  datatype Number = Invalid | OutOfRange | Parsed(val: i64, consumed: nat)

  function DigitsValue(ds: Bytes): nat
    requires AllDigits(ds)
  {
    if |ds| == 0 then 0
    else 10 * DigitsValue(ds[..|ds| - 1]) + (ds[|ds| - 1] as int - 48)
  }

  function SpaceEnd(s: Bytes, i: nat): (e: nat)
    requires i <= |s|
    ensures i <= e <= |s| && (e < |s| ==> !IsSpace(s[e]))
    ensures i < |s| && !IsSpace(s[i]) ==> e == i
    decreases |s| - i
  {
    if i < |s| && IsSpace(s[i]) then SpaceEnd(s, i + 1) else i
  }

  function DigitEnd(s: Bytes, i: nat): (e: nat)
    requires i <= |s|
    ensures i <= e <= |s| && (e < |s| ==> !IsDigit(s[e]))
    ensures forall j :: i <= j < e ==> IsDigit(s[j])
    decreases |s| - i
  {
    if i < |s| && IsDigit(s[i]) then DigitEnd(s, i + 1) else i
  }

  function Stoll(s: Bytes): (r: Number)
    ensures r.Parsed? ==> 0 < r.consumed <= |s|
  {
    var ws := SpaceEnd(s, 0);
    var negative := ws < |s| && s[ws] == MINUS;
    var start := if ws < |s| && (s[ws] == MINUS || s[ws] == PLUS) then ws + 1 else ws;
    var end := DigitEnd(s, start);
    if end == start then Invalid
    else
      var magnitude: int := DigitsValue(s[start..end]);
      var v: int := if negative then -magnitude else magnitude;
      if InI64(v) then Parsed(v as i64, end) else OutOfRange
  }

  /** `parse_ll`: the whole argument must have been consumed. */
  function ParseLL(s: Bytes): (r: Number)
    ensures r.Parsed? ==> r == Stoll(s) && r.consumed == |s|
  {
    var n := Stoll(s);
    if n.Parsed? && n.consumed == |s| then n else Invalid
  }

  lemma {:induction false} DigitsOfNatStr(n: nat)
    ensures DigitsValue(NatStr(n)) == n
  {
    if n < 10 {
      var r := NatStr(n);
      assert r[..|r| - 1] == [];
    } else {
      var r := NatStr(n);
      assert r[..|r| - 1] == NatStr(n / 10);
      DigitsOfNatStr(n / 10);
    }
  }

  /** `stoll` undoes `to_string` on every 64-bit integer and consumes every byte. */
  lemma StollOfIntStr(x: int)
    requires InI64(x)
    ensures Stoll(IntStr(x)) == Parsed(x as i64, |IntStr(x)|)
  {
    var s := IntStr(x);
    var digits := NatStr(if x < 0 then -x else x);
    var start := if x < 0 then 1 else 0;
    assert s[start..] == digits;
    assert forall j :: start <= j < |s| ==> s[j] == digits[j - start];
    assert s[start..|s|] == digits;
    DigitsOfNatStr(if x < 0 then -x else x);
  }

  /** No run of digits is shorter than the decimal form of its value. */
  lemma {:induction false} NatStrShortest(ds: Bytes)
    requires |ds| > 0 && AllDigits(ds)
    ensures |NatStr(DigitsValue(ds))| <= |ds|
  {
    var front := ds[..|ds| - 1];
    if |front| == 0 {
      assert DigitsValue(front) == 0;
    } else {
      NatStrShortest(front);
      assert DigitsValue(ds) / 10 == DigitsValue(front);
    }
  }

  /** The canonical form of a number is never longer than the text it was read from. */
  lemma IntStrShortest(s: Bytes)
    requires Stoll(s).Parsed?
    ensures |IntStr(Stoll(s).val as int)| <= Stoll(s).consumed
  {
    var ws := SpaceEnd(s, 0);
    var start := if s[ws] == MINUS || s[ws] == PLUS then ws + 1 else ws;
    NatStrShortest(s[start..DigitEnd(s, start)]);
  }

  // ---- What stoll reads, without its loops ----

  /** White space, at most one sign, digits, and then nothing or something that is not a digit. */
  predicate Splits(ws: Bytes, sign: Bytes, digits: Bytes, junk: Bytes) {
    && (forall i :: 0 <= i < |ws| ==> IsSpace(ws[i]))
    && (sign == [] || sign == [PLUS] || sign == [MINUS])
    && |digits| > 0 && AllDigits(digits)
    && (|junk| > 0 ==> !IsDigit(junk[0]))
  }

  lemma {:induction false} SpaceEndIs(s: Bytes, i: nat, e: nat)
    requires i <= e < |s| && !IsSpace(s[e]) && forall j :: i <= j < e ==> IsSpace(s[j])
    ensures SpaceEnd(s, i) == e
    decreases e - i
  {
    if i < e {
      SpaceEndIs(s, i + 1, e);
    }
  }

  lemma {:induction false} SpaceEndSpaces(s: Bytes, i: nat)
    requires i <= |s|
    ensures forall j :: i <= j < SpaceEnd(s, i) ==> IsSpace(s[j])
    decreases |s| - i
  {
    if i < |s| && IsSpace(s[i]) {
      SpaceEndSpaces(s, i + 1);
    }
  }

  lemma {:induction false} DigitEndIs(s: Bytes, i: nat, e: nat)
    requires i <= e <= |s| && (e < |s| ==> !IsDigit(s[e])) && forall j :: i <= j < e ==> IsDigit(s[j])
    ensures DigitEnd(s, i) == e
    decreases e - i
  {
    if i < e {
      DigitEndIs(s, i + 1, e);
    }
  }

  lemma PartsOf(ws: Bytes, sign: Bytes, digits: Bytes, junk: Bytes)
    ensures var s, start, end := ws + sign + digits + junk, |ws| + |sign|, |ws| + |sign| + |digits|;
      && (forall j :: 0 <= j < |ws| ==> s[j] == ws[j])
      && (forall j :: start <= j < end ==> s[j] == digits[j - start])
      && (|junk| > 0 ==> s[end] == junk[0])
      && (|sign| > 0 ==> s[|ws|] == sign[0])
      && s[start..end] == digits
  {
  }

  /** Text of that shape reads as the signed value of its digits, or is out of range. */
  lemma StollReads(ws: Bytes, sign: Bytes, digits: Bytes, junk: Bytes)
    requires Splits(ws, sign, digits, junk)
    ensures var v := if sign == [MINUS] then -(DigitsValue(digits) as int) else DigitsValue(digits);
      Stoll(ws + sign + digits + junk)
      == if InI64(v) then Parsed(v as i64, |ws| + |sign| + |digits|) else OutOfRange
  {
    hide Stoll, IsSpace, IsDigit, DigitsValue, InI64;
    PartsOf(ws, sign, digits, junk);
    assert (ws + sign + digits + junk)[|ws| + |sign|] == digits[0];
    StollAt(ws + sign + digits + junk, |ws|, |ws| + |sign|, |ws| + |sign| + |digits|);
  }

  lemma StollAt(s: Bytes, w: nat, start: nat, end: nat)
    requires w <= start < end <= |s| && start <= w + 1
    requires forall j :: 0 <= j < w ==> IsSpace(s[j])
    requires if start == w then IsDigit(s[w]) else s[w] == MINUS || s[w] == PLUS
    requires (forall j :: start <= j < end ==> IsDigit(s[j])) && (end < |s| ==> !IsDigit(s[end]))
    ensures var magnitude: int := DigitsValue(s[start..end]);
      var v := if start > w && s[w] == MINUS then -magnitude else magnitude;
      Stoll(s) == if InI64(v) then Parsed(v as i64, end) else OutOfRange
  {
    hide DigitsValue, SpaceEnd, DigitEnd;
    SpaceEndIs(s, 0, w);
    DigitEndIs(s, start, end);
  }

  lemma StollSplits(s: Bytes) returns (ws: Bytes, sign: Bytes, digits: Bytes, junk: Bytes)
    requires !Stoll(s).Invalid?
    ensures Splits(ws, sign, digits, junk) && s == ws + sign + digits + junk
  {
    hide DigitsValue, SpaceEnd, DigitEnd, InI64;
    var w := SpaceEnd(s, 0);
    var start := if w < |s| && (s[w] == MINUS || s[w] == PLUS) then w + 1 else w;
    var end := DigitEnd(s, start);
    SpaceEndSpaces(s, 0);
    ws, sign, digits, junk := s[..w], s[w..start], s[start..end], s[end..];
  }

  /** Any other text is refused. */
  lemma StollRefuses(s: Bytes)
    ensures Stoll(s).Invalid? <==>
      !exists ws, sign, digits, junk :: Splits(ws, sign, digits, junk) && s == ws + sign + digits + junk
  {
    hide Stoll, Splits;
    if ws, sign, digits, junk :| Splits(ws, sign, digits, junk) && s == ws + sign + digits + junk {
      StollReads(ws, sign, digits, junk);
    }
    if !Stoll(s).Invalid? {
      var ws, sign, digits, junk := StollSplits(s);
      assert Splits(ws, sign, digits, junk) && s == ws + sign + digits + junk;
    }
  }
}
