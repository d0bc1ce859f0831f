/** INCOMPLETE is not a promise: which unfinished buffers more bytes can still complete, and which wait for ever. */
module Unfinished {
  import opened ByteStrings
  import opened Decimal
  import opened Numerals
  import opened RespValues
  import opened Parser

  // ---- The condition, on the bytes already there ----

  /** No CR or LF so far, except that the last byte may be the CR of the closing CRLF. */
  predicate Unspoilt(tail: Bytes) {
    IsLine(tail) || (|tail| > 0 && tail[|tail| - 1] == CR && IsLine(tail[..|tail| - 1]))
  }

  predicate OpenPayload(rest: Bytes, n: nat) {
    |rest| <= n || (|rest| == n + 1 && rest[n] == CR)
  }

  predicate OpenBulk(tail: Bytes) {
    match Header(tail)
    case Complete(n, u) => n >= 0 && OpenPayload(tail[u..], n as int)
    case Incomplete => CanReach(tail, -1)
    case Error => false
  }

  predicate OpenArray(tail: Bytes)
    decreases |tail|, 2
  {
    match Header(tail)
    case Complete(n, u) => n >= 0 && OpenElems(tail[u..], n as int)
    case Incomplete => CanReach(tail, 0)
    case Error => false
  }

  /** Past the elements that are complete, the first unfinished one decides. */
  predicate OpenElems(s: Bytes, n: nat)
    decreases |s|, 1
  {
    n == 0 ||
    match Parse(s)
    case Complete(_, u) => OpenElems(s[u..], n - 1)
    case Incomplete => Open(s)
    case Error => false
  }

  predicate Open(s: Bytes)
    decreases |s|, 0
  {
    |s| == 0 ||
    if s[0] == STRING_TAG then Unspoilt(s[1..])
    else if s[0] == ERROR_TAG then Unspoilt(s[1..]) && s[1..] != [CR]
    else if s[0] == INTEGER_TAG then CanReach(s[1..], I64_MIN)
    else if s[0] == BULK_TAG then OpenBulk(s[1..])
    else s[0] == ARRAY_TAG && OpenArray(s[1..])
  }

  // ---- Lines ----

  lemma NoLineYet(tail: Bytes)
    ensures Line(tail).Incomplete? <==> NoCrlf(tail)
    ensures Header(tail).Incomplete? <==> NoCrlf(tail)
  {
    assert Find(tail).Some? ==> CrlfAt(tail, Find(tail).value);
  }

  lemma CompletedLine(tail: Bytes, t: Bytes)
    requires NoCrlf(tail) && Line(tail + t).Complete?
    ensures Unspoilt(tail)
    ensures tail == [CR] ==> Line(tail + t).value == []
  {
    var s, pos := tail + t, Find(tail + t).value;
    assert !CrlfAt(tail, pos);
    assert s[pos] == CR && s[pos + 1] == LF;
    assert forall i :: 0 <= i < |tail| && i < pos ==> tail[i] == s[..pos][i];
  }

  /** The rest of an unspoilt line: the missing half of its CRLF, or all of it, after `more` if wanted. */
  lemma FinishLine(tail: Bytes, more: Bytes) returns (t: Bytes)
    requires Unspoilt(tail) && IsLine(more)
    ensures Line(tail + t).Complete? && Line(tail + t).used == |tail + t|
    ensures IsLine(tail) ==> Line(tail + t).value == tail + more
    ensures !IsLine(tail) ==> Line(tail + t).value == tail[..|tail| - 1]
  {
    var line := if IsLine(tail) then tail + more else tail[..|tail| - 1];
    t := if IsLine(tail) then more + CRLF else [LF];
    assert tail + t == line + CRLF == line + CRLF + [];
    FindAfterLine(line, []);
    assert (line + CRLF)[..|line|] == line;
  }

  // ---- Numbers ----

  lemma ReachedNumber(tail: Bytes, t: Bytes, min: int)
    requires NoCrlf(tail) && Header(tail + t).Complete? && Header(tail + t).value as int >= min && min <= 0
    ensures CanReach(tail, min)
  {
    hide CanReach, Stoll;
    var pos := Find(tail + t).value;
    var text := (tail + t)[..pos];
    assert !CrlfAt(tail, pos);
    if pos + 1 == |tail| {
      assert tail == text + [CR];
      TrailingCr(text);
      assert tail == tail + [];
      StartReaches(tail, [], min);
    } else {
      assert text == tail + text[|tail|..];
      StartReaches(tail, text[|tail|..], min);
    }
  }

  /** A numeral at least `min` and the CRLF that ends it. */
  lemma FinishNumber(tail: Bytes, min: int) returns (t: Bytes, n: i64)
    requires NoCrlf(tail) && CanReach(tail, min) && min <= 0
    ensures n as int >= min
    ensures forall rest :: Header(tail + t + rest) == Complete(n, |tail + t|)
  {
    hide CanReach, Stoll, Header;
    var t0 := ReachesNumber(tail, min);
    t, n := t0 + CRLF, Stoll(tail + t0).val;
    forall rest
      ensures Header(tail + t + rest) == Complete(n, |tail + t|)
    {
      HeaderOfText(tail + t0, rest);
      assert tail + t0 + CRLF + rest == tail + t + rest;
    }
  }

  // ---- Bulk strings ----

  lemma PayloadOpens(rest: Bytes, n: nat) returns (t: Bytes)
    requires |rest| < n + 2 && OpenPayload(rest, n)
    ensures Payload(rest + t, n).Complete? && Payload(rest + t, n).used == |rest + t|
  {
    t := if |rest| <= n then seq(n - |rest|, _ => 0) + CRLF else [LF];
    assert (rest + t)[n..n + 2] == CRLF;
  }

  lemma BulkLengthOpens(tail: Bytes) returns (t: Bytes)
    requires NoCrlf(tail) && CanReach(tail, -1)
    ensures var o := ParseBulkString(tail + t); o.Complete? && o.used == 1 + |tail + t|
  {
    hide CanReach, OpenPayload, Payload, Header;
    var t0, n := FinishNumber(tail, -1);
    if n == -1 {
      t := t0;
      assert tail + t == tail + t0 + [];
    } else {
      EmptyPayload(n as int);
      var t1 := PayloadOpens([], n as int);
      assert [] + t1 == t1;
      t := t0 + t1;
      assert tail + t == tail + t0 + t1;
      assert (tail + t)[|tail + t0|..] == t1;
    }
  }

  lemma BulkOpens(tail: Bytes) returns (t: Bytes)
    requires ParseBulkString(tail).Incomplete? && OpenBulk(tail)
    ensures var o := ParseBulkString(tail + t); o.Complete? && o.used == 1 + |tail + t|
  {
    hide CanReach, OpenPayload, Payload;
    NoLineYet(tail);
    hide NoCrlf;
    if Header(tail).Complete? {
      var u := Header(tail).used;
      PayloadEnds(tail[u..], Header(tail).value as int);
      t := PayloadOpens(tail[u..], Header(tail).value as int);
      HeaderStable(tail, t);
      SplitAppend(tail, t, u);
    } else {
      t := BulkLengthOpens(tail);
    }
  }

  lemma PayloadEnds(rest: Bytes, n: nat)
    ensures Payload(rest, n).Incomplete? <==> |rest| < n + 2
  {
  }

  lemma EmptyPayload(n: nat)
    ensures OpenPayload([], n)
  {
  }

  lemma BulkWasOpen(tail: Bytes, t: Bytes)
    requires ParseBulkString(tail).Incomplete? && ParseBulkString(tail + t).Complete?
    ensures OpenBulk(tail)
  {
    hide CanReach;
    NoLineYet(tail);
    if Header(tail).Complete? {
      var u, n := Header(tail).used, Header(tail).value as int;
      HeaderStable(tail, t);
      SplitAppend(tail, t, u);
      var rest := tail[u..];
      assert (rest + t)[n..n + 2][0] == CR;
    } else {
      ReachedNumber(tail, t, -1);
    }
  }

  // ---- Arrays ----

  /** `n` empty simple strings. */
  function Filler(n: nat): Bytes {
    if n == 0 then [] else [STRING_TAG, CR, LF] + Filler(n - 1)
  }

  lemma {:induction false} FillerIsElems(n: nat)
    ensures var o := ParseElems(Filler(n), n); o.Complete? && o.used == |Filler(n)|
  {
    hide Parse, ParseElems;
    ElemsUnfold(Filler(n), n);
    if n > 0 {
      FillerIsElems(n - 1);
      EmptyString(Filler(n - 1));
      assert Filler(n)[3..] == Filler(n - 1);
    }
  }

  lemma EmptyString(rest: Bytes)
    ensures Parse([STRING_TAG, CR, LF] + rest) == Complete(SimpleString([]), 3)
  {
    var s := [STRING_TAG, CR, LF] + rest;
    assert s[1..] == [] + CRLF + rest;
    FindAfterLine([], rest);
    assert s[1..][..0] == [];
  }

  /** Elements that follow a complete one. */
  lemma FirstThenRest(s: Bytes, rest: Bytes, n: nat)
    requires n > 0 && Parse(s).Complete? && Parse(s).used == |s|
    requires ParseElems(rest, n - 1).Complete? && ParseElems(rest, n - 1).used == |rest|
    ensures var o := ParseElems(s + rest, n); o.Complete? && o.used == |s + rest|
  {
    hide Parse, ParseElems;
    CompleteStable(s, rest);
    SplitAppend(s, rest, |s|);
    ElemsUnfold(s + rest, n);
    assert s[|s|..] + rest == rest;
  }

  lemma {:induction false} ElemsOpen(s: Bytes, n: nat) returns (t: Bytes)
    requires ParseElems(s, n).Incomplete? && OpenElems(s, n)
    ensures var o := ParseElems(s + t, n); o.Complete? && o.used == |s + t|
    decreases |s|, 1
  {
    hide Parse, ParseElems, Open;
    ElemsUnfold(s, n);
    if Parse(s).Complete? {
      var u := Parse(s).used;
      t := ElemsOpen(s[u..], n - 1);
      CutAfterUse(s);
      FirstThenRest(s[..u], s[u..] + t, n);
      assert s[..u] + (s[u..] + t) == s + t;
    } else {
      var t0 := Completion(s);
      FillerIsElems(n - 1);
      FirstThenRest(s + t0, Filler(n - 1), n);
      t := t0 + Filler(n - 1);
      assert s + t == s + t0 + Filler(n - 1);
    }
  }

  lemma CutAfterUse(s: Bytes)
    requires Parse(s).Complete?
    ensures Parse(s[..Parse(s).used]) == Parse(s) && Parse(s).used <= |s|
  {
    VerdictStable(s, []);
  }

  lemma {:induction false} ArrayOpens(tail: Bytes) returns (t: Bytes)
    requires ParseArray(tail).Incomplete? && OpenArray(tail)
    ensures var o := ParseArray(tail + t); o.Complete? && o.used == 1 + |tail + t|
    decreases |tail|, 2
  {
    hide CanReach, ParseElems, Parse, OpenElems;
    NoLineYet(tail);
    if Header(tail).Complete? {
      var u := Header(tail).used;
      t := ElemsOpen(tail[u..], Header(tail).value as int);
      HeaderStable(tail, t);
      SplitAppend(tail, t, u);
    } else {
      var t0, n := FinishNumber(tail, 0);
      FillerIsElems(n as int);
      t := t0 + Filler(n as int);
      assert tail + t == tail + t0 + Filler(n as int);
      assert (tail + t)[|tail + t0|..] == Filler(n as int);
    }
  }

  lemma {:induction false} ArrayWasOpen(tail: Bytes, t: Bytes)
    requires ParseArray(tail).Incomplete? && ParseArray(tail + t).Complete?
    ensures OpenArray(tail)
    decreases |tail|, 2
  {
    hide CanReach, ParseElems, Parse;
    NoLineYet(tail);
    if Header(tail).Complete? {
      HeaderStable(tail, t);
      SplitAppend(tail, t, Header(tail).used);
      ElemsWereOpen(tail[Header(tail).used..], t, Header(tail).value as int);
    } else {
      ReachedNumber(tail, t, 0);
    }
  }

  lemma {:induction false} ElemsWereOpen(s: Bytes, t: Bytes, n: nat)
    requires ParseElems(s, n).Incomplete? && ParseElems(s + t, n).Complete?
    ensures OpenElems(s, n)
    decreases |s|, 1
  {
    hide Parse, ParseElems;
    ElemsUnfold(s, n);
    ElemsUnfold(s + t, n);
    if Parse(s).Complete? {
      CompleteStable(s, t);
      SplitAppend(s, t, Parse(s).used);
      ElemsWereOpen(s[Parse(s).used..], t, n - 1);
    } else {
      WasOpen(s, t);
    }
  }

  // ---- Any value ----

  /** Bytes that complete an open buffer, with nothing left over. */
  lemma {:induction false} Completion(s: Bytes) returns (t: Bytes)
    requires Parse(s).Incomplete? && Open(s)
    ensures Parse(s + t).Complete? && Parse(s + t).used == |s + t|
    decreases |s|, 0
  {
    hide ParseBulkString, ParseArray, OpenBulk, OpenArray, Unspoilt, Line, CanReach;
    if |s| == 0 {
      t := [STRING_TAG, CR, LF];
      EmptyString([]);
      assert s + t == t + [] == t;
    } else {
      var tail := s[1..];
      NoLineYet(tail);
      if s[0] == STRING_TAG {
        t := FinishLine(tail, []);
      } else if s[0] == ERROR_TAG {
        t := FinishLine(tail, [MINUS]);
        NonEmptyLine(tail);
      } else if s[0] == INTEGER_TAG {
        var n;
        t, n := FinishNumber(tail, I64_MIN);
        assert tail + t + [] == tail + t;
      } else if s[0] == BULK_TAG {
        t := BulkOpens(tail);
      } else {
        t := ArrayOpens(tail);
      }
      assert (s + t)[1..] == tail + t;
    }
  }

  lemma NonEmptyLine(tail: Bytes)
    ensures !IsLine(tail) && Unspoilt(tail) && tail != [CR] ==> tail[..|tail| - 1] != []
  {
    if !IsLine(tail) && Unspoilt(tail) && |tail| == 1 {
      assert tail == [tail[0]];
    }
  }

  lemma {:induction false} WasOpen(s: Bytes, t: Bytes)
    requires Parse(s).Incomplete? && Parse(s + t).Complete?
    ensures Open(s)
    decreases |s|, 0
  {
    hide ParseBulkString, ParseArray, OpenBulk, OpenArray, Unspoilt, Line, CanReach;
    if |s| > 0 {
      var tail := s[1..];
      assert (s + t)[1..] == tail + t;
      NoLineYet(tail);
      if s[0] == STRING_TAG || s[0] == ERROR_TAG {
        CompletedLine(tail, t);
      } else if s[0] == INTEGER_TAG {
        ReachedNumber(tail, t, I64_MIN);
      } else if s[0] == BULK_TAG {
        BulkWasOpen(tail, t);
      } else {
        ArrayWasOpen(tail, t);
      }
    }
  }

  /**
    An INCOMPLETE buffer can still become COMPLETE exactly when it is open; otherwise it stays
    INCOMPLETE or turns ERROR, whatever follows.
  */
  lemma CompletableIffOpen(s: Bytes)
    requires Parse(s).Incomplete?
    ensures (exists t :: Parse(s + t).Complete?) <==> Open(s)
  {
    hide Parse, Open;
    if t :| Parse(s + t).Complete? {
      WasOpen(s, t);
    }
    if Open(s) {
      var t := Completion(s);
    }
  }

  // ---- Dead ends ----

  /** "+a\rb": the CR is not followed by LF, and no byte to come can mend that. */
  lemma SpoiltStringWaits(t: Bytes)
    ensures Parse([STRING_TAG, 97, CR, 98]).Incomplete? && !Parse([STRING_TAG, 97, CR, 98] + t).Complete?
  {
    var s: Bytes := [STRING_TAG, 97, CR, 98];
    assert s[1..] == [97, CR, 98];
    NoLineYet(s[1..]);
    CompletableIffOpen(s);
  }

  /** "$-2": a length that more digits only make worse. */
  lemma NegativeLengthWaits(t: Bytes)
    ensures Parse([BULK_TAG, MINUS, 50]).Incomplete? && !Parse([BULK_TAG, MINUS, 50] + t).Complete?
  {
    var s: Bytes := [BULK_TAG, MINUS, 50];
    var two: Bytes := [50];
    assert s[1..] == [MINUS, 50] == [] + [MINUS] + two + [];
    assert DigitsValue(two) == 2 by {
      assert two[..0] == [] && DigitsValue([]) == 0;
    }
    StollReads([], [MINUS], two, []);
    SpaceEndIs([MINUS, 50], 0, 0);
    NoLineYet(s[1..]);
    CompletableIffOpen(s);
  }
}
