/** The spelling of numbers: what the start of a numeral can still become, and which spelling is printed. */
module Numerals {
  import opened ByteStrings
  import opened Decimal

  // ---- Starts of numerals ----

  /** White space, or white space and a sign: no digit yet. */
  predicate NumberStart(s: Bytes) {
    var w := SpaceEnd(s, 0);
    w == |s| || (w + 1 == |s| && (s[w] == MINUS || s[w] == PLUS))
  }

  /** Some text that starts with `s` is read as a number no smaller than `min`. */
  predicate CanReach(s: Bytes, min: int) {
    NumberStart(s) || (Stoll(s).Parsed? && Stoll(s).val as int >= min)
  }

  lemma {:induction false} DigitsPrefix(ds: Bytes, k: nat)
    requires AllDigits(ds) && k <= |ds|
    ensures DigitsValue(ds[..k]) <= DigitsValue(ds)
  {
    if k == |ds| {
      assert ds[..k] == ds;
    } else {
      var front := ds[..|ds| - 1];
      DigitsPrefix(front, k);
      assert front[..k] == ds[..k];
    }
  }

  lemma NumberStartOf(ws: Bytes, sign: Bytes)
    requires forall i :: 0 <= i < |ws| ==> IsSpace(ws[i])
    requires sign == [] || sign == [PLUS] || sign == [MINUS]
    ensures NumberStart(ws + sign)
  {
    var s := ws + sign;
    if sign == [] {
      assert s == ws;
      assert SpaceEnd(ws, 0) == |ws|;
    } else {
      SpaceEndIs(s, 0, |ws|);
    }
  }

  /** With a digit or more of the number in place, its value so far bounds what it can become. */
  lemma ReadSoFar(ws: Bytes, sign: Bytes, digits: Bytes, k: nat, junk: Bytes, min: int)
    requires AllDigits(digits) && 0 < k <= |digits|
    requires Splits(ws, sign, digits[..k], junk)
    requires min <= 0
    requires var v := if sign == [MINUS] then -(DigitsValue(digits) as int) else DigitsValue(digits);
      InI64(v) && v >= min
    ensures CanReach(ws + sign + digits[..k] + junk, min)
  {
    hide Splits, Stoll, NumberStart, DigitsValue;
    DigitsPrefix(digits, k);
    StollReads(ws, sign, digits[..k], junk);
  }

  /** Whatever starts a number no smaller than `min` passes for one that can reach it. */
  lemma StartReaches(a: Bytes, b: Bytes, min: int)
    requires Stoll(a + b).Parsed? && Stoll(a + b).val as int >= min && min <= 0
    ensures CanReach(a, min)
  {
    hide CanReach, Stoll, DigitsValue;
    var ws, sign, digits, junk := StollSplits(a + b);
    StollReads(ws, sign, digits, junk);
    var w := |ws| + |sign|;
    assert forall i :: 0 <= i < |a| ==> a[i] == (ws + sign + digits + junk)[i];
    if |a| <= w {
      StartOfSplit(a, ws, sign);
    } else {
      var k := if |a| - w < |digits| then |a| - w else |digits|;
      assert a == ws + sign + digits[..k] + a[w + k..];
      assert w + k < |a| ==> a[w + k] == junk[0];
      ReadSoFar(ws, sign, digits, k, a[w + k..], min);
    }
  }

  lemma StartOfSplit(a: Bytes, ws: Bytes, sign: Bytes)
    requires a <= ws + sign
    requires forall i :: 0 <= i < |ws| ==> IsSpace(ws[i])
    requires sign == [] || sign == [PLUS] || sign == [MINUS]
    ensures forall min :: CanReach(a, min)
  {
    hide NumberStart, Stoll;
    if |a| <= |ws| {
      assert a == ws[..|a|] == ws[..|a|] + [];
      NumberStartOf(ws[..|a|], []);
    } else {
      assert a == ws + sign;
      NumberStartOf(ws, sign);
    }
  }

  /** And it does reach it, with at most one more digit. */
  lemma ReachesNumber(s: Bytes, min: int) returns (t: Bytes)
    requires CanReach(s, min) && min <= 0 && NoCrlf(s)
    ensures NoCrlf(s + t) && Stoll(s + t).Parsed? && Stoll(s + t).val as int >= min
  {
    if NumberStart(s) {
      t := [48];
      var w := SpaceEnd(s, 0);
      SpaceEndSpaces(s, 0);
      assert DigitsValue(t[..0]) == 0 && DigitsValue(t) == 0;
      hide Stoll, SpaceEnd;
      StollReads(s[..w], s[w..], t, []);
      assert s + t == s[..w] + s[w..] + t + [];
      DigitAfter(s, t);
    } else {
      t := [];
      assert s + t == s;
    }
  }

  lemma DigitAfter(s: Bytes, t: Bytes)
    requires NoCrlf(s) && |t| == 1 && t[0] != LF
    ensures NoCrlf(s + t)
  {
    forall j: nat
      ensures !CrlfAt(s + t, j)
    {
      assert !CrlfAt(s, j);
    }
  }

  /** A CR at the end of a numeral is ignored. */
  lemma TrailingCr(s: Bytes)
    requires Stoll(s).Parsed?
    ensures Stoll(s + [CR]) == Stoll(s)
  {
    hide Stoll, DigitsValue;
    var ws, sign, digits, junk := StollSplits(s);
    StollReads(ws, sign, digits, junk);
    StollReads(ws, sign, digits, junk + [CR]);
    assert s + [CR] == ws + sign + digits + (junk + [CR]);
  }

  // ---- The printed spelling ----

  /** No white space, no plus sign, no leading zero, no minus zero, nothing after the digits. */
  predicate Canonical(s: Bytes) {
    var ds := if |s| > 0 && s[0] == MINUS then s[1..] else s;
    |ds| > 0 && AllDigits(ds) && (ds[0] == 48 ==> s == [48])
  }

  lemma {:induction false} NatStrOfDigits(ds: Bytes)
    requires |ds| > 0 && AllDigits(ds) && (ds[0] == 48 ==> |ds| == 1)
    ensures NatStr(DigitsValue(ds)) == ds
  {
    var front := ds[..|ds| - 1];
    if |front| == 0 {
      assert DigitsValue(front) == 0;
    } else {
      NatStrOfDigits(front);
      assert DigitsValue(front) > 0 by {
        assert NatStr(0) == [48];
      }
      assert DigitsValue(ds) / 10 == DigitsValue(front);
      assert ds == front + [ds[|ds| - 1]];
    }
  }

  lemma {:induction false} NatStrLead(n: nat)
    ensures NatStr(n)[0] == 48 <==> n == 0
    ensures n == 0 ==> NatStr(n) == [48]
  {
    if n >= 10 {
      NatStrLead(n / 10);
    }
  }

  lemma IntStrCanonical(x: int)
    ensures Canonical(IntStr(x))
  {
    NatStrLead(if x < 0 then -x else x);
    if x < 0 {
      assert IntStr(x)[1..] == NatStr(-x);
    }
  }

  /** A number is printed with the bytes it was read from exactly when they are canonical. */
  lemma PrintedIffCanonical(s: Bytes)
    requires Stoll(s).Parsed?
    ensures IntStr(Stoll(s).val as int) == s <==> Canonical(s)
  {
    hide Stoll, Canonical;
    IntStrCanonical(Stoll(s).val as int);
    if Canonical(s) {
      CanonicalPrinted(s);
    }
  }

  lemma CanonicalPrinted(s: Bytes)
    requires Stoll(s).Parsed? && Canonical(s)
    ensures IntStr(Stoll(s).val as int) == s
  {
    hide Stoll, DigitsValue, NatStr;
    var sign, ds := if s[0] == MINUS then [MINUS] else [], if s[0] == MINUS then s[1..] else s;
    assert s == sign + ds == [] + sign + ds + [];
    StollReads([], sign, ds, []);
    NatStrOfDigits(ds);
    NatStrLead(DigitsValue(ds));
  }
}
