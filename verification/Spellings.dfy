/** When printing what was parsed gives back the very bytes: exactly when every number was spelled as it is printed. */
module Spellings {
  import opened ByteStrings
  import opened Decimal
  import opened Numerals
  import opened RespValues
  import opened Parser
  import opened Serializer
  import opened RoundTrips

  // ---- The condition, on the bytes alone ----

  /** Every number and length in the value at the start of `s` is canonical. */
  predicate Spelled(s: Bytes)
    decreases |s|, 0
  {
    |s| > 0 &&
    if s[0] == STRING_TAG || s[0] == ERROR_TAG then true
    else
      match Header(s[1..])
      case Complete(n, u) =>
        Canonical(s[1..][..u - 2]) && (s[0] == ARRAY_TAG && n >= 0 ==> SpelledElems(s[1..][u..], n as int))
      case _ => false
  }

  predicate SpelledElems(s: Bytes, n: nat)
    decreases |s|, 1
  {
    n == 0 ||
    match Parse(s)
    case Complete(_, u) => Spelled(s) && SpelledElems(s[u..], n - 1)
    case _ => false
  }

  // ---- One part at a time ----

  /** Two framed texts of which neither part of the first is longer agree only if the parts do. */
  lemma SameParts(tag: byte, a: Bytes, x: Bytes, b: Bytes, y: Bytes)
    requires |a| <= |b| && |x| <= |y|
    ensures [tag] + a + CRLF + x == [tag] + b + CRLF + y <==> a == b && x == y
  {
    var l, r := [tag] + a + CRLF + x, [tag] + b + CRLF + y;
    if l == r {
      assert |a| == |b|;
      assert a == l[1..1 + |a|] && b == r[1..1 + |b|];
      assert x == l[3 + |a|..] && y == r[3 + |b|..];
    }
  }

  lemma SameJoin(a: Bytes, x: Bytes, b: Bytes, y: Bytes)
    requires |a| <= |b| && |x| <= |y|
    ensures a + x == b + y <==> a == b && x == y
  {
    if a + x == b + y {
      assert a == (a + x)[..|a|] && b == (b + y)[..|b|] && x == (a + x)[|a|..] && y == (b + y)[|b|..];
    }
  }

  /** A numeral as read: its text is canonical exactly when it is the printed one. */
  lemma NumeralPart(tail: Bytes) returns (text: Bytes)
    requires Header(tail).Complete?
    ensures var Complete(n, u) := Header(tail);
      && text == tail[..u - 2] && tail[..u] == text + CRLF
      && |IntStr(n as int)| <= |text| && (IntStr(n as int) == text <==> Canonical(text))
  {
    hide Stoll, Canonical;
    text := tail[..Find(tail).value];
    IntStrShortest(text);
    PrintedIffCanonical(text);
  }

  lemma LineSpelled(s: Bytes)
    requires Parse(s).Complete? && (s[0] == STRING_TAG || s[0] == ERROR_TAG)
    ensures Serialize(Parse(s).value) == s[..Parse(s).used]
  {
    hide Line;
    LineConsumed(s[1..]);
    assert s[..Parse(s).used] == [s[0]] + s[1..][..Parse(s).used - 1];
  }

  /** The bytes consumed are the tag, the numeral, its CRLF and whatever body follows. */
  lemma Framed(s: Bytes, text: Bytes, used: nat)
    requires |text| + 3 <= used <= |s| && s[1..][..|text| + 2] == text + CRLF
    ensures s[..used] == [s[0]] + text + CRLF + s[1..][|text| + 2..][..used - |text| - 3]
  {
    assert s[1..][..used - 1] == s[1..][..|text| + 2] + s[1..][|text| + 2..][..used - |text| - 3];
    assert s[..used] == [s[0]] + s[1..][..used - 1];
  }

  lemma IntegerSpelled(s: Bytes)
    requires Parse(s).Complete? && s[0] == INTEGER_TAG
    ensures Serialize(Parse(s).value) == s[..Parse(s).used] <==> Spelled(s)
  {
    hide Header, IntStr, Canonical;
    var text := NumeralPart(s[1..]);
    var n := Header(s[1..]).value as int;
    Framed(s, text, Parse(s).used);
    SameParts(INTEGER_TAG, IntStr(n), [], text, []);
    assert [INTEGER_TAG] + IntStr(n) + CRLF == [INTEGER_TAG] + IntStr(n) + CRLF + [];
  }

  lemma BulkSpelled(s: Bytes)
    requires Parse(s).Complete? && s[0] == BULK_TAG
    ensures Serialize(Parse(s).value) == s[..Parse(s).used] <==> Spelled(s)
  {
    hide Header, IntStr, Canonical;
    var text := NumeralPart(s[1..]);
    var Complete(n, u) := Header(s[1..]);
    var rest := s[1..][u..];
    Framed(s, text, Parse(s).used);
    NegativeOne();
    if n == -1 {
      SameParts(BULK_TAG, IntStr(-1), [], text, []);
      assert NULL_BULK == [BULK_TAG] + IntStr(-1) + CRLF + [];
    } else {
      var body := rest[..n as int] + CRLF;
      assert rest[..n as int + 2] == body;
      SameParts(BULK_TAG, IntStr(n as int), body, text, body);
      assert Serialize(Parse(s).value) == [BULK_TAG] + IntStr(n as int) + CRLF + body;
    }
  }

  lemma {:induction false} ArraySpelled(s: Bytes)
    requires Parse(s).Complete? && s[0] == ARRAY_TAG
    ensures Serialize(Parse(s).value) == s[..Parse(s).used] <==> Spelled(s)
    decreases |s|, 0, 0
  {
    hide Header, IntStr, Canonical, ParseElems, SpelledElems;
    var text := NumeralPart(s[1..]);
    var Complete(n, u) := Header(s[1..]);
    var rest := s[1..][u..];
    Framed(s, text, Parse(s).used);
    ElemsShortest(rest, n as int);
    ElemsSpelled(rest, n as int);
    var Complete(vals, w) := ParseElems(rest, n as int);
    SameParts(ARRAY_TAG, IntStr(n as int), SerializeAll(vals), text, rest[..w]);
  }

  lemma {:induction false} ElemsSpelled(s: Bytes, n: nat)
    requires ParseElems(s, n).Complete?
    ensures SerializeAll(ParseElems(s, n).value) == s[..ParseElems(s, n).used] <==> SpelledElems(s, n)
    decreases |s|, 1
  {
    hide ParseElems, Parse, Spelled, Serialize;
    ElemsUnfold(s, 0);
    if n > 0 {
      ElemsApart(s, n);
      var Complete(v, u) := Parse(s);
      var Complete(vs, w) := ParseElems(s[u..], n - 1);
      PrintedBackIffSpelled(s);
      ElemsSpelled(s[u..], n - 1);
      CanonicalShortest(s);
      ElemsShortest(s[u..], n - 1);
      SerializeCons(v, vs);
      assert s[..u + w] == s[..u] + s[u..][..w];
      SameJoin(Serialize(v), SerializeAll(vs), s[..u], s[u..][..w]);
    }
  }

  /**
    Printing an accepted value gives back the very bytes it was read from exactly when every number
    among them, lengths included, was spelled canonically.
  */
  lemma {:induction false} PrintedBackIffSpelled(s: Bytes)
    requires Parse(s).Complete?
    ensures Serialize(Parse(s).value) == s[..Parse(s).used] <==> Spelled(s)
    decreases |s|, 0, 1
  {
    if s[0] == STRING_TAG || s[0] == ERROR_TAG {
      LineSpelled(s);
    } else if s[0] == INTEGER_TAG {
      IntegerSpelled(s);
    } else if s[0] == BULK_TAG {
      BulkSpelled(s);
    } else {
      ArraySpelled(s);
    }
  }

  // ---- Two spellings that are not printed back ----

  lemma ReadsInteger(text: Bytes)
    requires NoCrlf(text) && Stoll(text).Parsed?
    ensures Parse([INTEGER_TAG] + text + CRLF) == Complete(Integer(Stoll(text).val), |text| + 3)
  {
    hide Stoll, Header;
    HeaderOfText(text, []);
    assert ([INTEGER_TAG] + text + CRLF)[1..] == text + CRLF + [];
  }

  /** ":+5" is read as 5 and printed as ":5". */
  lemma PlusSignIsLost()
    ensures Parse([INTEGER_TAG, PLUS, 53] + CRLF) == Complete(Integer(5), 5)
    ensures Serialize(Integer(5)) == [INTEGER_TAG, 53] + CRLF
  {
    hide Stoll, Parse;
    var five: Bytes := [53];
    assert NatStr(5) == five;
    DigitsOfNatStr(5);
    StollReads([], [PLUS], five, []);
    assert [] + [PLUS] + five + [] == [PLUS, 53];
    ReadsInteger([PLUS, 53]);
    assert [INTEGER_TAG] + [PLUS, 53] == [INTEGER_TAG, PLUS, 53];
  }

  /** ":12abc" is read as 12 and printed as ":12". */
  lemma JunkIsLost()
    ensures Parse([INTEGER_TAG, 49, 50, 97, 98, 99] + CRLF) == Complete(Integer(12), 8)
    ensures Serialize(Integer(12)) == [INTEGER_TAG, 49, 50] + CRLF
  {
    hide Stoll, Parse;
    var twelve: Bytes, text: Bytes := [49, 50], [49, 50, 97, 98, 99];
    assert NatStr(12) == twelve by {
      assert NatStr(1) == [49];
    }
    DigitsOfNatStr(12);
    StollReads([], [], twelve, [97, 98, 99]);
    assert [] + [] + twelve + [97, 98, 99] == text;
    ReadsInteger(text);
    assert [INTEGER_TAG] + text == [INTEGER_TAG, 49, 50, 97, 98, 99];
  }
}
