/**
  Requests as a client writes them: an array of bulk strings, of which the first is a command's name in
  any letter case.
*/
module Requests {
  import opened Options
  import opened ByteStrings
  import opened RespValues
  import opened Store
  import opened Commands

  function NameOf(verb: Verb): string {
    match verb
    case ECHO => "ECHO" case PING => "PING" case EXISTS => "EXISTS" case DBSIZE => "DBSIZE" case DEL => "DEL"
    case KEYS => "KEYS" case TYPE => "TYPE" case APPEND => "APPEND" case DECR => "DECR" case DECRBY => "DECRBY"
    case INCR => "INCR" case INCRBY => "INCRBY" case GET => "GET" case GETDEL => "GETDEL" case SET => "SET"
    case SETNX => "SETNX" case STRLEN => "STRLEN" case LINDEX => "LINDEX" case LLEN => "LLEN" case LPOP => "LPOP"
    case LPUSH => "LPUSH" case LRANGE => "LRANGE" case RPOP => "RPOP" case RPUSH => "RPUSH" case HDEL => "HDEL"
    case HEXISTS => "HEXISTS" case HGET => "HGET" case HGETALL => "HGETALL" case HKEYS => "HKEYS"
    case HLEN => "HLEN" case HSET => "HSET" case HVALS => "HVALS" case SADD => "SADD" case SCARD => "SCARD"
    case SISMEMBER => "SISMEMBER" case SMEMBERS => "SMEMBERS" case SREM => "SREM" case ZADD => "ZADD"
    case ZCARD => "ZCARD" case ZRANGE => "ZRANGE" case ZREM => "ZREM" case ZSCORE => "ZSCORE"
  }

  /** `b` is the name, given in capitals, in any letter case. */
  predicate SameLetters(b: Bytes, name: string) {
    && |b| == |name|
    && forall i :: 0 <= i < |b| ==> b[i] as int == name[i] as int || b[i] as int == name[i] as int + 32
  }

  predicate Asks(v: RespValue, verb: Verb, args: seq<Bytes>) {
    && v.Array? && |v.vals| == 1 + |args|
    && v.vals[0].BulkString? && SameLetters(v.vals[0].msg, NameOf(verb))
    && forall i :: 0 <= i < |args| ==> v.vals[1 + i] == BulkString(args[i])
  }

  /** Not a command at all: no array, an empty one, or one with something else than bulk strings in it. */
  predicate Malformed(v: RespValue) {
    !v.Array? || |v.vals| == 0 || exists i :: 0 <= i < |v.vals| && !v.vals[i].BulkString?
  }

  predicate Unheard(v: RespValue) {
    !Malformed(v) && forall verb :: !SameLetters(v.vals[0].msg, NameOf(verb))
  }

  lemma EveryRequest(v: RespValue)
    ensures Malformed(v) || Unheard(v) || exists verb, args :: Asks(v, verb, args)
  {
    if !Malformed(v) && !Unheard(v) {
      var verb :| SameLetters(v.vals[0].msg, NameOf(verb));
      var args := seq(|v.vals| - 1, i requires 0 <= i < |v.vals| - 1 => v.vals[1 + i].msg);
      assert Asks(v, verb, args);
    }
  }

  // ---- Every name finds its command ----

  predicate Named(table: seq<(string, Verb)>) {
    forall i :: 0 <= i < |table| ==> table[i].0 == NameOf(table[i].1)
  }

  lemma FamiliesNamed()
    ensures Named(KeyHandlers()) && Named(StringHandlers()) && Named(ListHandlers())
    ensures Named(HashHandlers()) && Named(SetHandlers()) && Named(SortedSetHandlers())
  {
    KeysNamed();
    StringsNamed();
    ListsNamed();
    HashesNamed();
    SetsNamed();
    SortedSetsNamed();
  }

  lemma KeysNamed()
    ensures Named(KeyHandlers())
  {
  }

  lemma StringsNamed()
    ensures Named(StringHandlers())
  {
  }

  lemma ListsNamed()
    ensures Named(ListHandlers())
  {
  }

  lemma FirstHashesNamed()
    ensures Named(HashHandlers()[..4])
  {
  }

  lemma LastHashesNamed()
    ensures Named(HashHandlers()[4..])
  {
  }

  lemma HashesNamed()
    ensures Named(HashHandlers())
  {
    FirstHashesNamed();
    LastHashesNamed();
    var table := HashHandlers();
    assert |table| == 8;
    hide NameOf, HashHandlers;
    assert table == table[..4] + table[4..];
  }

  lemma SetsNamed()
    ensures Named(SetHandlers())
  {
  }

  lemma SortedSetsNamed()
    ensures Named(SortedSetHandlers())
  {
  }

  lemma HandlersNamed()
    ensures Named(Handlers())
  {
    FamiliesNamed();
    hide NameOf, KeyHandlers, StringHandlers, ListHandlers, HashHandlers, SetHandlers, SortedSetHandlers;
  }

  /** The part of the handler table the command is in, and its row there. */
  function PlaceOf(verb: Verb): (seq<(string, Verb)>, nat) {
    match verb
    case ECHO => (KeyHandlers(), 0) case PING => (KeyHandlers(), 1) case EXISTS => (KeyHandlers(), 2)
    case DBSIZE => (KeyHandlers(), 3) case DEL => (KeyHandlers(), 4) case KEYS => (KeyHandlers(), 5)
    case TYPE => (KeyHandlers(), 6)
    case APPEND => (StringHandlers(), 0) case DECR => (StringHandlers(), 1) case DECRBY => (StringHandlers(), 2)
    case INCR => (StringHandlers(), 3) case INCRBY => (StringHandlers(), 4) case GET => (StringHandlers(), 5)
    case GETDEL => (StringHandlers(), 6) case SET => (StringHandlers(), 7) case SETNX => (StringHandlers(), 8)
    case STRLEN => (StringHandlers(), 9)
    case LINDEX => (ListHandlers(), 0) case LLEN => (ListHandlers(), 1) case LPOP => (ListHandlers(), 2)
    case LPUSH => (ListHandlers(), 3) case LRANGE => (ListHandlers(), 4) case RPOP => (ListHandlers(), 5)
    case RPUSH => (ListHandlers(), 6)
    case HDEL => (HashHandlers(), 0) case HEXISTS => (HashHandlers(), 1) case HGET => (HashHandlers(), 2)
    case HGETALL => (HashHandlers(), 3) case HKEYS => (HashHandlers(), 4) case HLEN => (HashHandlers(), 5)
    case HSET => (HashHandlers(), 6) case HVALS => (HashHandlers(), 7)
    case SADD => (SetHandlers(), 0) case SCARD => (SetHandlers(), 1) case SISMEMBER => (SetHandlers(), 2)
    case SMEMBERS => (SetHandlers(), 3) case SREM => (SetHandlers(), 4)
    case ZADD => (SortedSetHandlers(), 0) case ZCARD => (SortedSetHandlers(), 1)
    case ZRANGE => (SortedSetHandlers(), 2) case ZREM => (SortedSetHandlers(), 3)
    case ZSCORE => (SortedSetHandlers(), 4)
  }

  predicate IsInPlace(verb: Verb) {
    var (table, row) := PlaceOf(verb);
    row < |table| && table[row].1 == verb
  }

  lemma InPlace0(verb: Verb)
    requires Third(verb) == 0
    ensures IsInPlace(verb)
  {
  }

  lemma InPlace1(verb: Verb)
    requires Third(verb) == 1
    ensures IsInPlace(verb)
  {
  }

  lemma InPlace2(verb: Verb)
    requires Third(verb) == 2
    ensures IsInPlace(verb)
  {
  }

  lemma InPlace(verb: Verb)
    ensures IsInPlace(verb)
  {
    ThirdIs(verb);
    hide IsInPlace, Third;
    if Third(verb) == 0 {
      InPlace0(verb);
    } else if Third(verb) == 1 {
      InPlace1(verb);
    } else {
      InPlace2(verb);
    }
  }

  lemma PlaceInTable(verb: Verb) returns (before: seq<(string, Verb)>, after: seq<(string, Verb)>)
    ensures Handlers() == before + PlaceOf(verb).0 + after
  {
    hide KeyHandlers, StringHandlers, ListHandlers, HashHandlers, SetHandlers, SortedSetHandlers;
    var k, s, l, h, t, z :=
      KeyHandlers(), StringHandlers(), ListHandlers(), HashHandlers(), SetHandlers(), SortedSetHandlers();
    var table := PlaceOf(verb).0;
    if table == k {
      before, after := [], s + l + h + t + z;
    } else if table == s {
      before, after := k, l + h + t + z;
    } else if table == l {
      before, after := k + s, h + t + z;
    } else if table == h {
      before, after := k + s + l, t + z;
    } else if table == t {
      before, after := k + s + l + h, z;
    } else {
      before, after := k + s + l + h + t, [];
    }
  }

  lemma InHandlers(verb: Verb) returns (i: nat)
    ensures i < |Handlers()| && Handlers()[i].1 == verb
  {
    InPlace(verb);
    var before, after := PlaceInTable(verb);
    hide PlaceOf, Handlers;
    i := |before| + PlaceOf(verb).1;
  }

  // Facts about all names are proved for a third of the commands at a time.

  function Third(verb: Verb): nat {
    match verb
    case ECHO | PING | EXISTS | DBSIZE | DEL | KEYS | TYPE | APPEND | DECR | DECRBY | INCR | INCRBY | GET | GETDEL => 0
    case SET | SETNX | STRLEN | LINDEX | LLEN | LPOP | LPUSH | LRANGE | RPOP | RPUSH | HDEL | HEXISTS | HGET => 1
    case HGETALL | HKEYS | HLEN | HSET | HVALS | SADD | SCARD | SISMEMBER | SMEMBERS | SREM => 2
    case ZADD | ZCARD | ZRANGE | ZREM | ZSCORE => 2
  }

  lemma NamesDiffer0(a: Verb, b: Verb)
    requires a != b && Third(a) == 0
    ensures NameOf(a) != NameOf(b)
  {
  }

  lemma NamesDiffer1(a: Verb, b: Verb)
    requires a != b && Third(a) == 1
    ensures NameOf(a) != NameOf(b)
  {
  }

  lemma NamesDiffer2(a: Verb, b: Verb)
    requires a != b && Third(a) == 2
    ensures NameOf(a) != NameOf(b)
  {
  }

  lemma NamesDiffer(a: Verb, b: Verb)
    requires a != b
    ensures NameOf(a) != NameOf(b)
  {
    ThirdIs(a);
    hide NameOf, Third;
    if Third(a) == 0 {
      NamesDiffer0(a, b);
    } else if Third(a) == 1 {
      NamesDiffer1(a, b);
    } else {
      NamesDiffer2(a, b);
    }
  }

  lemma ThirdIs(verb: Verb)
    ensures Third(verb) <= 2
  {
  }

  predicate Capitals(s: string) {
    forall i :: 0 <= i < |s| ==> 'A' <= s[i] <= 'Z'
  }

  lemma Capitals0(verb: Verb)
    requires Third(verb) == 0
    ensures Capitals(NameOf(verb))
  {
  }

  lemma Capitals1(verb: Verb)
    requires Third(verb) == 1
    ensures Capitals(NameOf(verb))
  {
  }

  lemma Capitals2(verb: Verb)
    requires Third(verb) == 2
    ensures Capitals(NameOf(verb))
  {
  }

  lemma NamesAreCapitals(verb: Verb)
    ensures Capitals(NameOf(verb))
  {
    ThirdIs(verb);
    hide NameOf, Third, Capitals;
    if Third(verb) == 0 {
      Capitals0(verb);
    } else if Third(verb) == 1 {
      Capitals1(verb);
    } else {
      Capitals2(verb);
    }
  }

  lemma AsciiInjective(a: string, b: string)
    requires Capitals(a) && Capitals(b) && Ascii(a) == Ascii(b)
    ensures a == b
  {
    assert forall i :: 0 <= i < |a| ==> a[i] as int == Ascii(a)[i] as int == Ascii(b)[i] as int == b[i] as int;
  }

  lemma {:induction false} FoundIfThere(table: seq<(string, Verb)>, name: Bytes, i: nat)
    requires i < |table| && Ascii(table[i].0) == name
    ensures LookupIn(table, name).Some?
  {
    hide Ascii;
    if i > 0 {
      FoundIfThere(table[1..], name, i - 1);
    }
  }

  lemma {:induction false} FoundInRow(table: seq<(string, Verb)>, name: Bytes) returns (i: nat)
    requires LookupIn(table, name).Some?
    ensures i < |table| && Ascii(table[i].0) == name && LookupIn(table, name) == Some(table[i].1)
  {
    hide Ascii;
    if name == Ascii(table[0].0) {
      i := 0;
    } else {
      i := FoundInRow(table[1..], name);
      i := i + 1;
    }
  }

  lemma FindsVerb(verb: Verb)
    ensures Lookup(Ascii(NameOf(verb))) == Some(verb)
  {
    hide NameOf, Handlers, LookupIn, Ascii, Capitals;
    var table, name := Handlers(), Ascii(NameOf(verb));
    HandlersNamed();
    var i := InHandlers(verb);
    FoundIfThere(table, name, i);
    var j := FoundInRow(table, name);
    NamesAreCapitals(verb);
    NamesAreCapitals(table[j].1);
    AsciiInjective(table[j].0, NameOf(verb));
    if table[j].1 != verb {
      NamesDiffer(table[j].1, verb);
    }
  }

  lemma UpperIff(b: Bytes, name: string)
    requires Capitals(name)
    ensures SameLetters(b, name) <==> Upper(b) == Ascii(name)
  {
    var u, a := Upper(b), Ascii(name);
    if SameLetters(b, name) {
      assert forall i :: 0 <= i < |b| ==> u[i] == a[i];
    }
    if u == a {
      assert |b| == |u| == |name|;
      assert forall i :: 0 <= i < |b| ==> u[i] == a[i];
    }
  }

  /** A command is found exactly under its name, in any letter case. */
  lemma LookupIff(b: Bytes, verb: Verb)
    ensures Lookup(Upper(b)) == Some(verb) <==> SameLetters(b, NameOf(verb))
  {
    hide NameOf, Handlers, LookupIn, Ascii, Capitals, Upper, SameLetters;
    NamesAreCapitals(verb);
    UpperIff(b, NameOf(verb));
    FindsVerb(verb);
    if Lookup(Upper(b)) == Some(verb) {
      var i := FoundInRow(Handlers(), Upper(b));
      HandlersNamed();
    }
  }

  /** What the dispatcher makes of a request: the arguments go to the command of that name, in order. */
  lemma Asked(env: Env, v: RespValue, verb: Verb, args: seq<Bytes>) returns (all: seq<Bytes>)
    requires Asks(v, verb, args)
    ensures |all| == 1 + |args| && all[1..] == args && forall i :: 0 <= i < |args| ==> all[1 + i] == args[i]
    ensures ParseCommand(env, v) == ParseArgs(env, verb, all)
  {
    hide Lookup, Upper, ParseArgs, SameLetters, NameOf;
    LookupIff(v.vals[0].msg, verb);
    all := [v.vals[0].msg] + args;
    forall i | 0 <= i < |v.vals|
      ensures v.vals[i] == BulkString(all[i])
    {
      assert i > 0 ==> v.vals[1 + (i - 1)] == BulkString(args[i - 1]);
    }
    assert Args(v) == all;
  }

  lemma RunsRead(env: Env, db: DB, v: RespValue, key: Bytes, op: ReadOp)
    requires ParseCommand(env, v) == Accept(Read(key, op))
    ensures Dispatch(env, db, v) == (db, ReadReply(env, op, At(db, key)))
  {
    hide ParseCommand, ReadReply, At;
  }

  lemma RunsWrite(env: Env, db: DB, v: RespValue, key: Bytes, op: WriteOp)
    requires ParseCommand(env, v) == Accept(Write(key, op))
    ensures Dispatch(env, db, v) == (Put(db, key, Apply(op, At(db, key)).0), Apply(op, At(db, key)).1)
  {
    hide ParseCommand, Apply, At, Put;
  }
}
